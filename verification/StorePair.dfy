/**
 * The two RAM disks side by side. Given the same request, the same data and the
 * same answers about memory, the store over page frames does what the store over
 * separate allocations does: same contents, same result, same bytes read, same
 * allocated size.
 */
module StorePair {
  import opened Bytes
  import opened SparseDisk
  import opened LiveBlocks
  import V = VirtualMemoryIO
  import P = PhysicalMemoryIO

  /** Two valid stores of the same contents, with no memory in common. */
  ghost predicate Alike(v: V.VirtualMemoryIO, p: P.PhysicalMemoryIO)
    reads v, v.table, p, p.mem, p.mem.view
  {
    v.Valid() && p.Valid() && v.State() == p.State() && v.width == p.width && p.mem.view !in v.table
  }

  method MirrorWrite(v: V.VirtualMemoryIO, p: P.PhysicalMemoryIO, vbuf: array<byte>, pbuf: array<byte>,
                     size: nat, offset: nat, alloc: nat -> P.Memory) returns (vok: bool, pok: bool)
    requires Alike(v, p) && vbuf !in v.table && pbuf !in v.table
    requires vbuf != p.mem.view && pbuf != p.mem.view && vbuf != pbuf
    requires size <= vbuf.Length && vbuf[..] == pbuf[..] && v.Aligned(size) && v.Aligned(offset)
    modifies v, v.table, p, p.mem, p.mem.view, vbuf, pbuf
    ensures Alike(v, p) && vok == pok && vbuf[..] == pbuf[..] == old(vbuf[..])
  {
    hide P.PhysicalMemoryIO.Shaped, P.PhysicalMemoryIO.Blocks, P.PhysicalMemoryIO.Valid;
    hide V.VirtualMemoryIO.Shaped, V.VirtualMemoryIO.Blocks, V.VirtualMemoryIO.Valid, SparseDisk.Write;
    p.ValidShape();
    v.ValidShape();
    ghost var before := v.State();
    ghost var data := vbuf[..size];
    assert pbuf[..size] == data;
    var vin, pin;
    vok, vin := v.DiskWrite(vbuf, size, offset, P.Granted(alloc, p.np));
    pok, pin := p.DiskWrite(pbuf, size, offset, alloc);
    p.ValidShape();
  }

  method MirrorRead(v: V.VirtualMemoryIO, p: P.PhysicalMemoryIO, vbuf: array<byte>, pbuf: array<byte>, size: nat, offset: nat)
    returns (vok: bool, pok: bool, vin: bool, pin: bool)
    requires Alike(v, p) && vbuf !in v.table && pbuf !in v.table
    requires vbuf != p.mem.view && pbuf != p.mem.view && vbuf != pbuf
    requires size <= vbuf.Length && vbuf[..] == pbuf[..]
    modifies v, v.table, p, p.mem, p.mem.view, vbuf, pbuf
    ensures Alike(v, p) && vin == pin && (vin ==> vok && pok && vbuf[..] == pbuf[..])
  {
    hide P.PhysicalMemoryIO.Shaped, P.PhysicalMemoryIO.Blocks, P.PhysicalMemoryIO.Valid;
    hide V.VirtualMemoryIO.Shaped, V.VirtualMemoryIO.Blocks, V.VirtualMemoryIO.Valid, SparseDisk.Read;
    p.ValidShape();
    v.ValidShape();
    ghost var before := v.State();
    vok, vin := v.DiskRead(vbuf, size, offset);
    pok, pin := p.DiskRead(pbuf, size, offset);
    p.ValidShape();
  }

  method MirrorTrim(v: V.VirtualMemoryIO, p: P.PhysicalMemoryIO, ranges: seq<Range>)
    requires Alike(v, p)
    requires forall g | g in ranges :: v.Aligned(g.start) && (g.length > 0 ==> v.Aligned(g.length))
    modifies v, v.table, p, p.mem, p.mem.view
    ensures Alike(v, p)
  {
    hide P.PhysicalMemoryIO.Shaped, P.PhysicalMemoryIO.Blocks, P.PhysicalMemoryIO.Valid;
    hide V.VirtualMemoryIO.Shaped, V.VirtualMemoryIO.Blocks, V.VirtualMemoryIO.Valid, SparseDisk.Trim;
    p.ValidShape();
    v.ValidShape();
    ghost var before := v.State();
    v.TrimProcess(ranges);
    p.TrimProcess(ranges);
    p.ValidShape();
  }

  method MirrorAllocSize(v: V.VirtualMemoryIO, p: P.PhysicalMemoryIO) returns (vsize: nat, psize: nat)
    requires Alike(v, p)
    ensures vsize == psize == Live(v.Blocks()) * v.n
  {
    vsize := v.GetAllocSize();
    psize := p.GetAllocSize();
  }
}
