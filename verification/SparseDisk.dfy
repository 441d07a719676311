/**
 * The RAM disk that CVirtualMemoryIO and CPhysicalMemoryIO both keep: a table of
 * equal blocks that grows on demand. A block that is not allocated reads as zeros,
 * so a disk is described by the bytes of its blocks alone. `Write`, `Read` and
 * `Trim` follow the loops of the two classes; the lemmas relate them to one flat
 * sequence of bytes.
 */
module SparseDisk {
  import opened Bytes

  datatype Disk = Disk(n: nat, size: nat, blocks: seq<seq<byte>>)

  /** The table always covers the disk size, as Init and Expand compute it. */
  ghost predicate Valid(d: Disk) {
    && d.n > 0
    && |d.blocks| == Ceil(d.size, d.n)
    && Blocky(d.blocks, d.n)
  }

  ghost predicate Blocky(blocks: seq<seq<byte>>, n: nat) {
    forall i | 0 <= i < |blocks| :: |blocks[i]| == n
  }

  function Ceil(u: nat, n: nat): nat
    requires n > 0
  {
    (u + n - 1) / n
  }

  /** The table entry of a byte, and its place in that entry's block. */
  function EntryOf(offset: nat, n: nat): nat
    requires n > 0
  {
    offset / n
  }

  function Within(offset: nat, n: nat): (r: nat)
    requires n > 0
    ensures r < n
  {
    offset % n
  }

  /** `blocks` continued with zero blocks up to `count` of them. */
  function Pad(blocks: seq<seq<byte>>, count: nat, n: nat): (r: seq<seq<byte>>)
    ensures |r| == if count < |blocks| then |blocks| else count
    ensures forall i | 0 <= i < |r| :: r[i] == if i < |blocks| then blocks[i] else Zeros(n)
  {
    if count <= |blocks| then blocks else blocks + seq(count - |blocks|, _ => Zeros(n))
  }

  function Expand(d: Disk, size: nat): (r: Disk)
    requires d.n > 0
  {
    if size <= d.size then d else Disk(d.n, size, Pad(d.blocks, Ceil(size, d.n), d.n))
  }

  /** The table as one turn of a loop finds it: expanded if the loop ran past its end. */
  function Reach(d: Disk, index: nat, need: nat): (r: Disk)
    requires d.n > 0
    ensures r.n == d.n && |d.blocks| <= |r.blocks| && r.blocks == Pad(d.blocks, |r.blocks|, d.n)
  {
    if index >= |d.blocks| then Expand(d, need) else d
  }

  // ----- writing

  /** An all-zero block takes data only if memory for it is granted. */
  predicate Refused(block: seq<byte>, chunk: seq<byte>, granted: bool) {
    AllZero(block) && !AllZero(chunk) && !granted
  }

  /** `ok` is what the call returns; `inTable` says that no block past the table was used. */
  datatype Written = Written(disk: Disk, ok: bool, inTable: bool)

  /** One turn of the write loop: the bytes of the request that fall into one block. */
  function ChunkSize(size: nat, blockOffset: nat, n: nat): (r: nat)
    requires blockOffset < n
    ensures r <= size && blockOffset + r <= n
    ensures size > 0 ==> r > 0
    ensures r < size ==> blockOffset + r == n
  {
    Min(size + blockOffset, n) - blockOffset
  }

  function PutChunk(block: seq<byte>, blockOffset: nat, chunk: seq<byte>, granted: bool): (r: seq<byte>)
    requires blockOffset + |chunk| <= |block|
    ensures |r| == |block|
  {
    if Refused(block, chunk, granted) then block else Splice(block, blockOffset, chunk)
  }

  /** One turn of the write loop on the block it has reached. */
  function PutTurn(d: Disk, index: nat, blockOffset: nat, chunk: seq<byte>, granted: bool): (r: Disk)
    requires index < |d.blocks| && blockOffset + |chunk| <= |d.blocks[index]|
    ensures r.n == d.n && r.size == d.size && |r.blocks| == |d.blocks|
    ensures r.blocks == d.blocks[index := PutChunk(d.blocks[index], blockOffset, chunk, granted)]
    ensures Blocky(d.blocks, d.n) ==> Blocky(r.blocks, r.n)
  {
    d.(blocks := d.blocks[index := PutChunk(d.blocks[index], blockOffset, chunk, granted)])
  }

  /** The write loop from table entry `index` on, with `data` still to be written. */
  function WriteFrom(d: Disk, index: nat, blockOffset: nat, data: seq<byte>, offset: nat, grant: nat -> bool): Written
    requires d.n > 0 && Blocky(d.blocks, d.n) && blockOffset < d.n
    decreases |data|
  {
    var d := Reach(d, index, offset + |data|);
    if index >= |d.blocks| then Written(d, false, false)
    else
      var size := ChunkSize(|data|, blockOffset, d.n);
      var ok := !Refused(d.blocks[index], data[..size], grant(index));
      var d := PutTurn(d, index, blockOffset, data[..size], grant(index));
      if size == |data| then Written(d, ok, true)
      else
        var rest := WriteFrom(d, index + 1, 0, data[size..], offset, grant);
        rest.(ok := rest.ok && ok)
  }

  function Write(d: Disk, offset: nat, data: seq<byte>, grant: nat -> bool): Written
    requires d.n > 0 && Blocky(d.blocks, d.n)
  {
    WriteFrom(d, EntryOf(offset, d.n), Within(offset, d.n), data, offset, grant)
  }

  // ----- reading

  datatype Fetched = Fetched(disk: Disk, data: seq<byte>, inTable: bool)

  /** The read loop from table entry `index` on, with `size` bytes still to fetch. */
  function ReadFrom(d: Disk, index: nat, blockOffset: nat, size: nat, offset: nat): Fetched
    requires d.n > 0 && Blocky(d.blocks, d.n) && blockOffset < d.n
    decreases size
  {
    var d := Reach(d, index, offset + size);
    if index >= |d.blocks| then Fetched(d, [], false)
    else
      var chunk := ChunkSize(size, blockOffset, d.n);
      var got := d.blocks[index][blockOffset..blockOffset + chunk];
      if chunk == size then Fetched(d, got, true)
      else
        var rest := ReadFrom(d, index + 1, 0, size - chunk, offset);
        rest.(data := got + rest.data)
  }

  function Read(d: Disk, offset: nat, size: nat): Fetched
    requires d.n > 0 && Blocky(d.blocks, d.n)
  {
    ReadFrom(d, EntryOf(offset, d.n), Within(offset, d.n), size, offset)
  }

  // ----- trimming

  datatype Range = Range(start: nat, length: int)

  /** The inner trim loop, which stops at the end of the table. */
  function TrimFrom(d: Disk, index: nat, blockOffset: nat, size: int): Disk
    requires d.n > 0 && Blocky(d.blocks, d.n) && blockOffset < d.n
    decreases size
  {
    if size <= 0 || index >= |d.blocks| then d
    else
      var chunk := ChunkSize(size, blockOffset, d.n);
      var d := d.(blocks := d.blocks[index := Splice(d.blocks[index], blockOffset, Zeros(chunk))]);
      TrimFrom(d, index + 1, 0, size - chunk)
  }

  function Trim(d: Disk, ranges: seq<Range>): Disk
    requires d.n > 0 && Blocky(d.blocks, d.n)
    decreases |ranges|
  {
    if ranges == [] then d
    else
      TrimFromKeepsShape(d, EntryOf(ranges[0].start, d.n), Within(ranges[0].start, d.n), ranges[0].length);
      Trim(TrimFrom(d, EntryOf(ranges[0].start, d.n), Within(ranges[0].start, d.n), ranges[0].length), ranges[1..])
  }

  lemma TrimFromKeepsShape(d: Disk, index: nat, blockOffset: nat, size: int)
    requires d.n > 0 && Blocky(d.blocks, d.n) && blockOffset < d.n
    ensures var r := TrimFrom(d, index, blockOffset, size);
            r.n == d.n && r.size == d.size && |r.blocks| == |d.blocks| && Blocky(r.blocks, r.n)
    decreases size
  {
  }
}
