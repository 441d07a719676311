/**
 * What the block loops of SparseDisk do to the disk seen as one flat sequence of
 * bytes, and exactly which requests stay inside the table.
 */
module SparseDiskFlat {
  import opened Bytes
  import opened SparseDisk
  import opened SparseDiskTable

  /** The bytes that table entry starting at flat position `base` should hold after `data` is put at `at`. */
  function Want(block: seq<byte>, base: nat, at: nat, data: seq<byte>): (r: seq<byte>)
    ensures |r| == |block|
    ensures forall j | 0 <= j < |block| :: r[j] == if at <= base + j < at + |data| then data[base + j - at] else block[j]
  {
    seq(|block|, j requires 0 <= j < |block| => if at <= base + j < at + |data| then data[base + j - at] else block[j])
  }

  /** A block after a write that wants `want` in it: what was there, if memory for it was refused. */
  function Settle(block: seq<byte>, want: seq<byte>, granted: bool): seq<byte> {
    if Refused(block, want, granted) then block else want
  }

  /** One turn of the write loop does to its block what the whole request asks of it. */
  lemma PutChunkSettles(block: seq<byte>, base: nat, blockOffset: nat, data: seq<byte>, granted: bool)
    requires blockOffset < |block|
    ensures var chunk := data[..ChunkSize(|data|, blockOffset, |block|)];
            var want := Want(block, base, base + blockOffset, data);
            && Refused(block, chunk, granted) == Refused(block, want, granted)
            && PutChunk(block, blockOffset, chunk, granted) == Settle(block, want, granted)
  {
    var chunk := data[..ChunkSize(|data|, blockOffset, |block|)];
    var want := Want(block, base, base + blockOffset, data);
    assert Splice(block, blockOffset, chunk) == want;
    assert want[blockOffset..blockOffset + |chunk|] == chunk;
    if AllZero(want) {
      forall j | 0 <= j < |chunk| ensures chunk[j] == 0 {
        assert chunk[j] == want[blockOffset + j];
      }
    }
  }

  /** A block outside the request keeps its bytes and is never refused. */
  lemma SettleUntouched(block: seq<byte>, base: nat, at: nat, data: seq<byte>, granted: bool)
    requires data == [] || at + |data| <= base || base + |block| <= at
    ensures Want(block, base, at, data) == block
    ensures Settle(block, block, granted) == block
    ensures !Refused(block, block, granted)
  {
  }

  /** Every block of the table after a write of `data` at flat position `at`. */
  function SettleAll(before: seq<seq<byte>>, n: nat, at: nat, data: seq<byte>, grant: nat -> bool): (r: seq<seq<byte>>)
    ensures |r| == |before|
  {
    seq(|before|, i requires 0 <= i < |before| => Settle(before[i], Want(before[i], Base(i, n), at, data), grant(i)))
  }

  /** No block that needs memory for the write is denied it. */
  ghost predicate AllGranted(before: seq<seq<byte>>, n: nat, at: nat, data: seq<byte>, grant: nat -> bool) {
    forall i | 0 <= i < |before| :: !Refused(before[i], Want(before[i], Base(i, n), at, data), grant(i))
  }

  /** Block `i` before and after one turn of the write loop has the same outcome ahead of it. */
  ghost predicate SameOutcome(block: seq<byte>, at: nat, data: seq<byte>, block': seq<byte>, at': nat, data': seq<byte>, base: nat, granted: bool) {
    && Settle(block, Want(block, base, at, data), granted) == Settle(block', Want(block', base, at', data'), granted)
    && !Refused(block', Want(block', base, at', data'), granted)
  }

  lemma OwnBlockStep(block: seq<byte>, base: nat, blockOffset: nat, data: seq<byte>, granted: bool)
    requires blockOffset < |block|
    ensures var size := ChunkSize(|data|, blockOffset, |block|);
            SameOutcome(block, base + blockOffset, data,
                        PutChunk(block, blockOffset, data[..size], granted), base + blockOffset + size, data[size..], base, granted)
  {
    var size := ChunkSize(|data|, blockOffset, |block|);
    PutChunkSettles(block, base, blockOffset, data, granted);
    SettleUntouched(PutChunk(block, blockOffset, data[..size], granted), base, base + blockOffset + size, data[size..], granted);
  }

  /** Away from the block just written, dropping the part of the request in that block changes nothing. */
  lemma OtherBlockStep(block: seq<byte>, base: nat, own: nat, blockOffset: nat, data: seq<byte>)
    requires blockOffset < |block|
    requires base + |block| <= own || own + |block| <= base
    ensures var size := ChunkSize(|data|, blockOffset, |block|);
            Want(block, base, own + blockOffset, data) == Want(block, base, own + blockOffset + size, data[size..])
  {
  }

  /** One turn of the write loop leaves the overall outcome as it was. */
  lemma SettleStep(before: seq<seq<byte>>, n: nat, index: nat, blockOffset: nat, data: seq<byte>, grant: nat -> bool,
                   at: nat, size: nat, after: seq<seq<byte>>)
    requires Blocky(before, n) && blockOffset < n && index < |before|
    requires at == Base(index, n) + blockOffset
    requires size == ChunkSize(|data|, blockOffset, n)
    requires after == before[index := PutChunk(before[index], blockOffset, data[..size], grant(index))]
    ensures SettleAll(before, n, at, data, grant) == SettleAll(after, n, at + size, data[size..], grant)
    ensures AllGranted(before, n, at, data, grant) <==>
            !Refused(before[index], data[..size], grant(index)) && AllGranted(after, n, at + size, data[size..], grant)
  {
    OwnBlockStep(before[index], Base(index, n), blockOffset, data, grant(index));
    PutChunkSettles(before[index], Base(index, n), blockOffset, data, grant(index));
    forall i | 0 <= i < |before| && i != index
      ensures Want(before[i], Base(i, n), at, data) == Want(after[i], Base(i, n), at + size, data[size..])
    {
      if i < index { BlocksApart(i, index, n); } else { BlocksApart(index, i, n); }
      OtherBlockStep(before[i], Base(i, n), Base(index, n), blockOffset, data);
    }
  }

  /** With nothing left to write the table is settled. */
  lemma SettleNothing(before: seq<seq<byte>>, n: nat, at: nat, grant: nat -> bool)
    ensures SettleAll(before, n, at, [], grant) == before
    ensures AllGranted(before, n, at, [], grant)
  {
    forall i | 0 <= i < |before|
      ensures Settle(before[i], Want(before[i], Base(i, n), at, []), grant(i)) == before[i]
      ensures !Refused(before[i], Want(before[i], Base(i, n), at, []), grant(i))
    {
      SettleUntouched(before[i], Base(i, n), at, [], grant(i));
    }
  }

  /** What the write loop from some table entry on has done when it ends inside the table. */
  ghost predicate Settled(d: Disk, at: nat, data: seq<byte>, grant: nat -> bool, w: Written) {
    var before := Pad(d.blocks, |w.disk.blocks|, d.n);
    && w.disk.n == d.n && |d.blocks| <= |w.disk.blocks|
    && w.disk.blocks == SettleAll(before, d.n, at, data, grant)
    && (w.ok <==> AllGranted(before, d.n, at, data, grant))
  }

  /** Going one turn back. */
  lemma SettledBefore(d: Disk, d0: Disk, d1: Disk, index: nat, blockOffset: nat, data: seq<byte>, grant: nat -> bool,
                      at: nat, size: nat, rest: Written, w: Written)
    requires d.n > 0 && Blocky(d.blocks, d.n) && blockOffset < d.n
    requires d0.n == d.n && |d.blocks| <= |d0.blocks| && d0.blocks == Pad(d.blocks, |d0.blocks|, d.n) && index < |d0.blocks|
    requires at == Base(index, d.n) + blockOffset
    requires size == ChunkSize(|data|, blockOffset, d.n)
    requires Blocky(d0.blocks, d.n) && d1 == PutTurn(d0, index, blockOffset, data[..size], grant(index))
    requires Settled(d1, at + size, data[size..], grant, rest)
    requires w == rest.(ok := rest.ok && !Refused(d0.blocks[index], data[..size], grant(index)))
    ensures Settled(d, at, data, grant, w)
  {
    hide SettleAll, AllGranted, Refused, PutChunk;
    var before := Pad(d.blocks, |w.disk.blocks|, d.n);
    var after := Pad(d1.blocks, |w.disk.blocks|, d.n);
    assert before[index] == d0.blocks[index];
    assert after == before[index := PutChunk(before[index], blockOffset, data[..size], grant(index))];
    SettleStep(before, d.n, index, blockOffset, data, grant, at, size, after);
  }

  /** With nothing left to write the disk is settled as it is. */
  lemma SettledAtEnd(d: Disk, at: nat, grant: nat -> bool)
    ensures Settled(d, at, [], grant, Written(d, true, true))
  {
    hide SettleAll, AllGranted;
    SettleNothing(d.blocks, d.n, at, grant);
    assert Pad(d.blocks, |d.blocks|, d.n) == d.blocks;
  }

  /** The write loop after a turn that stayed inside the table. */
  ghost function Remaining(d: Disk, index: nat, data: seq<byte>, offset: nat, grant: nat -> bool): Written
    requires d.n > 0 && Blocky(d.blocks, d.n)
  {
    if data == [] then Written(d, true, true) else WriteFrom(d, index, 0, data, offset, grant)
  }

  lemma WriteFromTurn(d: Disk, index: nat, blockOffset: nat, data: seq<byte>, offset: nat, grant: nat -> bool)
    requires d.n > 0 && Blocky(d.blocks, d.n) && blockOffset < d.n
    requires WriteFrom(d, index, blockOffset, data, offset, grant).inTable
    ensures var d0, size := Reach(d, index, offset + |data|), ChunkSize(|data|, blockOffset, d.n);
            && index < |d0.blocks| && Blocky(d0.blocks, d.n)
            && var d1 := PutTurn(d0, index, blockOffset, data[..size], grant(index));
               var rest := Remaining(d1, index + 1, data[size..], offset, grant);
            && d1.n == d.n && Blocky(d1.blocks, d.n) && rest.inTable
            && WriteFrom(d, index, blockOffset, data, offset, grant) == rest.(ok := rest.ok && !Refused(d0.blocks[index], data[..size], grant(index)))
  {
    hide PutTurn, Reach, Refused;
  }

  /**
   * The write loop settles every block of the grown table with the part of the
   * request that falls into it, and returns true exactly when it refused none.
   */
  lemma {:induction false} WriteFromSettles(d: Disk, index: nat, blockOffset: nat, data: seq<byte>, offset: nat, grant: nat -> bool)
    requires d.n > 0 && Blocky(d.blocks, d.n) && blockOffset < d.n
    requires WriteFrom(d, index, blockOffset, data, offset, grant).inTable
    ensures Settled(d, Base(index, d.n) + blockOffset, data, grant, WriteFrom(d, index, blockOffset, data, offset, grant))
    decreases |data|
  {
    hide SettleAll, AllGranted, Settled, WriteFrom, Reach, PutTurn, Pad, Refused;
    var n, at := d.n, Base(index, d.n) + blockOffset;
    var d0, size := Reach(d, index, offset + |data|), ChunkSize(|data|, blockOffset, n);
    WriteFromTurn(d, index, blockOffset, data, offset, grant);
    var d1 := PutTurn(d0, index, blockOffset, data[..size], grant(index));
    var rest := Remaining(d1, index + 1, data[size..], offset, grant);
    if size == |data| {
      assert data[size..] == [];
      SettledAtEnd(d1, at + size, grant);
    } else {
      WriteFromSettles(d1, index + 1, 0, data[size..], offset, grant);
      BlocksApart(index, index + 1, n);
    }
    SettledBefore(d, d0, d1, index, blockOffset, data, grant, at, size, rest, WriteFrom(d, index, blockOffset, data, offset, grant));
  }
}
