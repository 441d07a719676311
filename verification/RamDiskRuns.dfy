/** Whole runs of requests on a RAM disk against a flat array of bytes that grows. */
module RamDiskRuns {
  import opened Bytes
  import opened SparseDisk
  import opened SparseDiskTable
  import opened SparseDiskFlat
  import opened SparseDiskBytes

  datatype Request =
    | WriteRequest(offset: nat, data: seq<byte>, grant: nat -> bool)
    | ReadRequest(offset: nat, size: nat)
    | TrimRequest(ranges: seq<Range>)

  /** The reference: the disk size and every byte the disk holds, in whole blocks of n. */
  datatype FlatDisk = FlatDisk(size: nat, bytes: seq<byte>)

  ghost function View(d: Disk): FlatDisk {
    FlatDisk(d.size, Flat(d.blocks))
  }

  // ----- the disk as it is

  /** One request, with what it returned: the data read, and whether it did all it was asked. */
  ghost function Serve(d: Disk, q: Request): (Disk, seq<byte>, bool)
    requires Valid(d)
  {
    match q
    case WriteRequest(offset, data, grant) => var w := Write(d, offset, data, grant); (w.disk, [], w.ok && w.inTable)
    case ReadRequest(offset, size) => var r := Read(d, offset, size); (r.disk, r.data, r.inTable)
    case TrimRequest(ranges) => (Trim(d, ranges), [], true)
  }

  lemma ServeKeepsValid(d: Disk, q: Request)
    requires Valid(d)
    ensures Valid(Serve(d, q).0) && Serve(d, q).0.n == d.n
  {
    match q
    case WriteRequest(offset, data, grant) => WriteSplices(d, offset, data, grant);
    case ReadRequest(offset, size) => ReadSlices(d, offset, size);
    case TrimRequest(ranges) => TrimZeros(d, ranges);
  }

  /** What a request returns to its caller. */
  datatype Reply = Reply(data: seq<byte>, ok: bool)

  ghost function Run(d: Disk, qs: seq<Request>): (Disk, seq<Reply>)
    requires Valid(d)
    decreases |qs|
  {
    if qs == [] then (d, [])
    else
      ServeKeepsValid(d, qs[0]);
      var first := Serve(d, qs[0]);
      var rest := Run(first.0, qs[1..]);
      (rest.0, [Reply(first.1, first.2)] + rest.1)
  }

  // ----- the flat reference

  /**
   * A request that ends past the last block adds blocks, as many as it needs. The disk then ends where the request
   * does, or short of that by what of the request was inside before.
   */
  ghost function GrowFor(f: FlatDisk, n: nat, offset: nat, length: nat): (r: FlatDisk)
    requires n > 0
    ensures offset + length <= |r.bytes|
  {
    var end := |f.bytes|;
    if offset + length <= end then f
    else
      CeilHolds(offset + length, n, Ceil(offset + length, n));
      FlatDisk(if end <= offset then offset + length else offset + (offset + length - end),
               f.bytes + Zeros(Base(Ceil(offset + length, n), n) - end))
  }

  /** A request that stays in the table; one that is inside the disk or starts past it always does. */
  predicate InContract(f: FlatDisk, n: nat, offset: nat, length: nat)
    requires n > 0
  {
    StaysInTable(|f.bytes|, n, offset, length)
  }

  ghost predicate Accepts(f: FlatDisk, n: nat, q: Request)
    requires n > 0
  {
    match q
    case WriteRequest(offset, data, _) => InContract(f, n, offset, |data|)
    case ReadRequest(offset, size) => InContract(f, n, offset, size)
    case TrimRequest(_) => true
  }

  lemma BlockOf(k: nat, n: nat, count: nat)
    requires n > 0 && k < Base(count, n)
    ensures k / n < count && Base(k / n, n) <= k < Base(k / n, n) + n <= Base(count, n)
  {
    Position(k, n);
    if count < k / n { BlocksApart(count, k / n, n); }
    if k / n < count { BlocksApart(k / n, count, n); }
  }

  /** Block i of the array is all zero, is to take data, and is denied memory. */
  ghost predicate Denied(bytes: seq<byte>, n: nat, i: nat, at: nat, data: seq<byte>, grant: nat -> bool) {
    Base(i, n) + n <= |bytes| &&
    var block := bytes[Base(i, n)..Base(i, n) + n];
    Refused(block, Want(block, Base(i, n), at, data), grant(i))
  }

  /** The data spliced in, except into blocks that are denied memory. */
  ghost function SpliceGranted(bytes: seq<byte>, n: nat, at: nat, data: seq<byte>, grant: nat -> bool): (r: seq<byte>)
    requires n > 0
    ensures |r| == |bytes|
    ensures forall k | 0 <= k < |bytes| ::
              r[k] == if at <= k < at + |data| && !Denied(bytes, n, k / n, at, data, grant) then data[k - at] else bytes[k]
  {
    seq(|bytes|, k requires 0 <= k < |bytes| =>
      if at <= k < at + |data| && !Denied(bytes, n, k / n, at, data, grant) then data[k - at] else bytes[k])
  }

  ghost predicate NoneDenied(bytes: seq<byte>, n: nat, at: nat, data: seq<byte>, grant: nat -> bool) {
    forall i: nat :: !Denied(bytes, n, i, at, data, grant)
  }

  /** With no memory denied it is a plain splice. */
  lemma GrantedSplices(bytes: seq<byte>, n: nat, at: nat, data: seq<byte>, grant: nat -> bool)
    requires n > 0 && at + |data| <= |bytes| && NoneDenied(bytes, n, at, data, grant)
    ensures SpliceGranted(bytes, n, at, data, grant) == Splice(bytes, at, data)
  {
    hide Denied;
  }

  /** The blocks as the write leaves them are the bytes as SpliceGranted leaves them. */
  lemma SettledBytes(before: seq<seq<byte>>, n: nat, at: nat, data: seq<byte>, grant: nat -> bool)
    requires n > 0 && Blocky(before, n)
    ensures Flat(SettleAll(before, n, at, data, grant)) == SpliceGranted(Flat(before), n, at, data, grant)
    ensures AllGranted(before, n, at, data, grant) <==> NoneDenied(Flat(before), n, at, data, grant)
  {
    hide Flat, Denied;
    var after := SettleAll(before, n, at, data, grant);
    SettleAllBlocky(before, n, at, data, grant);
    FlatLength(before, n);
    FlatLength(after, n);
    forall i: nat
      ensures Denied(Flat(before), n, i, at, data, grant) <==> i < |before| && Refused(before[i], Want(before[i], Base(i, n), at, data), grant(i))
    {
      DeniedBlock(before, n, at, data, grant, i);
    }
    forall k | 0 <= k < |Flat(before)|
      ensures Flat(after)[k] == SpliceGranted(Flat(before), n, at, data, grant)[k]
    {
      SettledByte(before, n, at, data, grant, k);
    }
  }

  lemma SettleAllBlocky(before: seq<seq<byte>>, n: nat, at: nat, data: seq<byte>, grant: nat -> bool)
    requires Blocky(before, n)
    ensures Blocky(SettleAll(before, n, at, data, grant), n)
  {
    var after := SettleAll(before, n, at, data, grant);
    forall i | 0 <= i < |after|
      ensures |after[i]| == n
    {
      assert after[i] == Settle(before[i], Want(before[i], Base(i, n), at, data), grant(i));
    }
  }

  lemma DeniedBlock(before: seq<seq<byte>>, n: nat, at: nat, data: seq<byte>, grant: nat -> bool, i: nat)
    requires n > 0 && Blocky(before, n)
    ensures Denied(Flat(before), n, i, at, data, grant) <==> i < |before| && Refused(before[i], Want(before[i], Base(i, n), at, data), grant(i))
  {
    hide Flat, Refused, Want;
    FlatLength(before, n);
    if i < |before| {
      FlatSlice(before, n, i, 0, n);
      assert before[i][0..n] == before[i];
      BlocksApart(i, |before|, n);
    } else if |before| < i {
      BlocksApart(|before|, i, n);
    }
  }

  lemma SettledByte(before: seq<seq<byte>>, n: nat, at: nat, data: seq<byte>, grant: nat -> bool, k: nat)
    requires n > 0 && Blocky(before, n) && k < |Flat(before)|
    ensures var after := SettleAll(before, n, at, data, grant);
            k < |Flat(after)| && Flat(after)[k] == SpliceGranted(Flat(before), n, at, data, grant)[k]
  {
    hide Flat, Denied, Refused;
    var after, i := SettleAll(before, n, at, data, grant), k / n;
    FlatLength(before, n);
    BlockOf(k, n, |before|);
    var j := k - Base(i, n);
    DeniedBlock(before, n, at, data, grant, i);
    SettleAllBlocky(before, n, at, data, grant);
    FlatLength(after, n);
    FlatSlice(before, n, i, j, j + 1);
    FlatSlice(after, n, i, j, j + 1);
    ByteOfSlice(Flat(before), Base(i, n) + j, before[i], j);
    ByteOfSlice(Flat(after), Base(i, n) + j, after[i], j);
  }

  lemma ByteOfSlice(s: seq<byte>, k: nat, t: seq<byte>, j: nat)
    requires k + 1 <= |s| && j + 1 <= |t| && s[k..k + 1] == t[j..j + 1]
    ensures s[k] == t[j]
  {
    assert s[k..k + 1][0] == t[j..j + 1][0];
  }

  ghost function ServeFlat(f: FlatDisk, n: nat, q: Request): (FlatDisk, Reply)
    requires n > 0 && Accepts(f, n, q)
  {
    match q
    case WriteRequest(offset, data, grant) =>
      var g := GrowFor(f, n, offset, |data|);
      (g.(bytes := SpliceGranted(g.bytes, n, offset, data, grant)), Reply([], NoneDenied(g.bytes, n, offset, data, grant)))
    case ReadRequest(offset, size) =>
      var g := GrowFor(f, n, offset, size);
      (g, Reply(g.bytes[offset..offset + size], true))
    case TrimRequest(ranges) => (f.(bytes := ZeroRanges(f.bytes, ranges)), Reply([], true))
  }

  ghost predicate AcceptsAll(f: FlatDisk, n: nat, qs: seq<Request>)
    requires n > 0
    decreases |qs|
  {
    qs != [] ==> Accepts(f, n, qs[0]) && AcceptsAll(ServeFlat(f, n, qs[0]).0, n, qs[1..])
  }

  ghost function RunFlat(f: FlatDisk, n: nat, qs: seq<Request>): (FlatDisk, seq<Reply>)
    requires n > 0 && AcceptsAll(f, n, qs)
    decreases |qs|
  {
    if qs == [] then (f, [])
    else
      var rest := RunFlat(ServeFlat(f, n, qs[0]).0, n, qs[1..]);
      (rest.0, [ServeFlat(f, n, qs[0]).1] + rest.1)
  }

  // ----- refinement

  /** In contract, the walk grows the table exactly as the reference grows. */
  lemma WalkGrowsFlat(d: Disk, offset: nat, length: nat)
    requires Valid(d) && InContract(View(d), d.n, offset, length)
    ensures var w := WalkFrom(|d.blocks|, d.size, d.n, EntryOf(offset, d.n), Within(offset, d.n), length, offset);
            var g := GrowFor(View(d), d.n, offset, length);
            && w.inTable && w.count >= |d.blocks|
            && w.size == g.size
            && Flat(Pad(d.blocks, w.count, d.n)) == g.bytes
  {
    hide Flat, Pad, WalkFrom;
    var n, count := d.n, |d.blocks|;
    FlatLength(d.blocks, n);
    WalkStaysInTable(d.size, n, offset, length);
    var w := Growth(d.size, n, offset, length);
    CeilHolds(offset + length, n, count);
    FlatPad(d.blocks, w.count, n);
    if w.count == count { assert Flat(d.blocks) + Zeros(0) == Flat(d.blocks); }
  }

  lemma ServeRefines(d: Disk, q: Request)
    requires Valid(d) && Accepts(View(d), d.n, q)
    ensures var s, f := Serve(d, q), ServeFlat(View(d), d.n, q);
            View(s.0) == f.0 && Reply(s.1, s.2) == f.1
  {
    hide SpliceGranted, NoneDenied, SettleAll, AllGranted, Flat;
    var n := d.n;
    match q
    case WriteRequest(offset, data, grant) => WriteRefines(d, offset, data, grant);
    case ReadRequest(offset, size) =>
      WalkGrowsFlat(d, offset, size);
      ReadSlices(d, offset, size);
      ReadWalks(d, EntryOf(offset, n), Within(offset, n), size, offset);
    case TrimRequest(ranges) =>
      TrimZeros(d, ranges);
  }

  /** A write, denied memory or not. */
  lemma WriteRefines(d: Disk, offset: nat, data: seq<byte>, grant: nat -> bool)
    requires Valid(d) && InContract(View(d), d.n, offset, |data|)
    ensures var w, g := Write(d, offset, data, grant), GrowFor(View(d), d.n, offset, |data|);
            && w.inTable && w.disk.size == g.size
            && Flat(w.disk.blocks) == SpliceGranted(g.bytes, d.n, offset, data, grant)
            && w.ok == NoneDenied(g.bytes, d.n, offset, data, grant)
  {
    hide SpliceGranted, NoneDenied, SettleAll, AllGranted, Flat, WriteFrom, WalkFrom;
    var n, w := d.n, Write(d, offset, data, grant);
    WalkGrowsFlat(d, offset, |data|);
    WriteWalks(d, EntryOf(offset, n), Within(offset, n), data, offset, grant);
    WriteFromSettles(d, EntryOf(offset, n), Within(offset, n), data, offset, grant);
    Position(offset, n);
    SettledWhole(d, offset, data, grant, w);
  }

  lemma SettledWhole(d: Disk, at: nat, data: seq<byte>, grant: nat -> bool, w: Written)
    requires d.n > 0 && Blocky(d.blocks, d.n) && Settled(d, at, data, grant, w)
    ensures var grown := Flat(Pad(d.blocks, |w.disk.blocks|, d.n));
            Flat(w.disk.blocks) == SpliceGranted(grown, d.n, at, data, grant) && w.ok == NoneDenied(grown, d.n, at, data, grant)
  {
    SettledBytes(Pad(d.blocks, |w.disk.blocks|, d.n), d.n, at, data, grant);
  }

  /**
   * Over any run of requests, each in contract, the disk is the flat array: same bytes, same
   * size, same data read, and a write returns false exactly when a block was denied memory.
   */
  lemma {:induction false} RunRefines(d: Disk, qs: seq<Request>)
    requires Valid(d) && AcceptsAll(View(d), d.n, qs)
    ensures View(Run(d, qs).0) == RunFlat(View(d), d.n, qs).0
    ensures Run(d, qs).1 == RunFlat(View(d), d.n, qs).1
    decreases |qs|
  {
    hide View, Serve, ServeFlat;
    if qs != [] {
      ServeKeepsValid(d, qs[0]);
      ServeRefines(d, qs[0]);
      RunRefines(Serve(d, qs[0]).0, qs[1..]);
    }
  }
}
