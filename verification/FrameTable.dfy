/** The table of CPhysicalMemoryIO on values: which page frames hold which block. */
module FrameTable {
  import opened Bytes
  import opened SparseDisk
  import opened SparseDiskTable
  import opened AddressWindow

  /** allocated_block (live) and pfn, which has a row of np frame numbers for every block. */
  datatype Table = Table(live: seq<bool>, pfn: seq<seq<nat>>, np: nat, page: nat)

  ghost predicate Sized(t: Table) {
    t.np > 0 && |t.pfn| == |t.live| && forall i | 0 <= i < |t.pfn| :: |t.pfn[i]| == t.np
  }

  /** Every allocated entry has its own frames. */
  ghost predicate Owned(t: Table, frames: map<nat, seq<byte>>)
    requires Sized(t)
  {
    && (forall i | 0 <= i < |t.live| && t.live[i] :: Distinct(t.pfn[i]) && Held(frames, t.pfn[i], t.page))
    && (forall i, k | 0 <= i < |t.live| && 0 <= k < |t.live| && i != k && t.live[i] && t.live[k] ::
          Apart(t.pfn[i], t.pfn[k]))
  }

  ghost function BlockAt(t: Table, frames: map<nat, seq<byte>>, i: nat): seq<byte>
    requires Sized(t) && Owned(t, frames) && i < |t.live|
  {
    if t.live[i] then Gather(frames, t.pfn[i]) else Zeros(Base(t.np, t.page))
  }

  /** The blocks the table and the frames stand for. */
  ghost function Blocks(t: Table, frames: map<nat, seq<byte>>): (r: seq<seq<byte>>)
    requires Sized(t) && Owned(t, frames)
    ensures |r| == |t.live|
    ensures Blocky(r, Base(t.np, t.page))
  {
    assert forall i | 0 <= i < |t.live| && t.live[i] :: |Gather(frames, t.pfn[i])| == Base(t.np, t.page) by {
      forall i | 0 <= i < |t.live| && t.live[i]
        ensures |Gather(frames, t.pfn[i])| == Base(t.np, t.page)
      {
        GatherLength(frames, t.pfn[i], t.page);
      }
    }
    seq(|t.live|, i requires 0 <= i < |t.live| => BlockAt(t, frames, i))
  }

  /** A table without live entries is all zero blocks, whatever numbers it holds. */
  lemma NoneLive(t: Table, frames: map<nat, seq<byte>>)
    requires Sized(t) && Owned(t, frames) && forall i | 0 <= i < |t.live| :: !t.live[i]
    ensures Blocks(t, frames) == seq(|t.live|, _ => Zeros(Base(t.np, t.page)))
  {
  }

  /** Writing through the view while it shows entry `index` changes that block and no other. */
  lemma ViewChanges(t: Table, held: map<nat, seq<byte>>, index: nat, was: seq<byte>, now: seq<byte>)
    requires Sized(t) && index < |t.live| && t.live[index]
    requires |was| == |now| == Base(t.np, t.page)
    requires Owned(t, Scatter(held, t.pfn[index], t.page, was))
    ensures Owned(t, Scatter(held, t.pfn[index], t.page, now))
    ensures Blocks(t, Scatter(held, t.pfn[index], t.page, now))
         == Blocks(t, Scatter(held, t.pfn[index], t.page, was))[index := now]
  {
    var fs := t.pfn[index];
    var before, after := Scatter(held, fs, t.page, was), Scatter(held, fs, t.page, now);
    GatherScatter(held, fs, t.page, now);
    forall i | 0 <= i < |t.live| && i != index && t.live[i]
      ensures Held(after, t.pfn[i], t.page) && Gather(after, t.pfn[i]) == Gather(before, t.pfn[i])
    {
      OtherEntry(t, held, index, was, now, i);
    }
  }

  lemma OtherEntry(t: Table, held: map<nat, seq<byte>>, index: nat, was: seq<byte>, now: seq<byte>, i: nat)
    requires Sized(t) && index < |t.live| && t.live[index]
    requires |was| == |now| == Base(t.np, t.page)
    requires Owned(t, Scatter(held, t.pfn[index], t.page, was))
    requires i < |t.live| && i != index && t.live[i]
    ensures Held(Scatter(held, t.pfn[index], t.page, now), t.pfn[i], t.page)
    ensures Gather(Scatter(held, t.pfn[index], t.page, now), t.pfn[i])
         == Gather(Scatter(held, t.pfn[index], t.page, was), t.pfn[i])
  {
    var fs, gs := t.pfn[index], t.pfn[i];
    assert Apart(gs, fs);
    forall k | 0 <= k < |gs|
      ensures gs[k] in held && Scatter(held, fs, t.page, now)[gs[k]] == Scatter(held, fs, t.page, was)[gs[k]]
    {
      ScatterOther(held, fs, t.page, was, gs[k]);
      ScatterOther(held, fs, t.page, now, gs[k]);
    }
    GatherSame(Scatter(held, fs, t.page, now), Scatter(held, fs, t.page, was), gs);
  }

  function Freed(t: Table, index: nat): (r: Table)
    requires index < |t.live|
  {
    t.(live := t.live[index := false])
  }

  /** Giving back one entry's frames leaves the other entries theirs. */
  lemma FreeKeepsOthers(t: Table, frames: map<nat, seq<byte>>, index: nat)
    requires Sized(t) && Owned(t, frames) && index < |t.live| && t.live[index]
    ensures var left := frames - Numbers(t.pfn[index]);
            && Owned(Freed(t, index), left)
            && Blocks(Freed(t, index), left) == Blocks(t, frames)[index := Zeros(Base(t.np, t.page))]
            && |left| + t.np == |frames|
  {
    var fs := t.pfn[index];
    var left := frames - Numbers(fs);
    forall i | 0 <= i < |t.live| && i != index && t.live[i]
      ensures Held(left, t.pfn[i], t.page) && Gather(left, t.pfn[i]) == Gather(frames, t.pfn[i])
    {
      assert Apart(t.pfn[i], fs);
      GatherSame(left, frames, t.pfn[i]);
    }
    assert forall i | 0 <= i < |t.live| :: Freed(t, index).pfn[i] == t.pfn[i];
    DistinctCount(fs);
    assert left.Keys == frames.Keys - Numbers(fs);
    assert Numbers(fs) <= frames.Keys;
  }

  lemma {:induction false} DistinctCount(fs: seq<nat>)
    requires Distinct(fs)
    ensures |Numbers(fs)| == |fs|
  {
    if fs != [] {
      DistinctCount(fs[1..]);
      assert fs[0] !in fs[1..];
      assert fs == [fs[0]] + fs[1..];
      assert Numbers(fs) == Numbers(fs[1..]) + {fs[0]};
    }
  }

  /** pfn with the numbers of new frames written at an entry. */
  function Numbered(t: Table, index: nat, fs: seq<nat>): (r: Table)
    requires Sized(t) && index < |t.live| && |fs| <= t.np
    ensures Sized(r)
  {
    t.(pfn := t.pfn[index := fs + t.pfn[index][|fs|..]])
  }

  lemma GatherZeros(frames: map<nat, seq<byte>>, fs: seq<nat>, page: nat)
    requires forall i | 0 <= i < |fs| :: fs[i] in frames && frames[fs[i]] == Zeros(page)
    ensures Gather(frames, fs) == Zeros(Base(|fs|, page))
    decreases |fs|
  {
    if fs != [] {
      BlocksApart(|fs| - 1, |fs|, page);
      GatherZeros(frames, fs[1..], page);
    }
  }

  /** The table with an entry's new frames in it. */
  function Allocated(t: Table, index: nat, fs: seq<nat>): (r: Table)
    requires Sized(t) && index < |t.live| && |fs| == t.np
    ensures Sized(r) && r.np == t.np && r.page == t.page && |r.live| == |t.live|
  {
    t.(live := t.live[index := true], pfn := t.pfn[index := fs])
  }

  lemma AllocateKeepsOwned(t: Table, frames: map<nat, seq<byte>>, index: nat, fs: seq<nat>, more: map<nat, seq<byte>>)
    requires Sized(t) && Owned(t, frames) && index < |t.live| && !t.live[index]
    requires |fs| == t.np && Gained(frames, fs, t.page, more)
    ensures Owned(Allocated(t, index, fs), more)
  {
    forall i | 0 <= i < |t.live| && t.live[i]
      ensures Held(more, t.pfn[i], t.page) && Apart(t.pfn[i], fs) && Apart(fs, t.pfn[i])
    {
    }
  }

  lemma GainedCount(frames: map<nat, seq<byte>>, fs: seq<nat>, page: nat, more: map<nat, seq<byte>>)
    requires Gained(frames, fs, page, more)
    ensures |more| == |frames| + |fs|
  {
    DistinctCount(fs);
    assert frames.Keys !! Numbers(fs);
    assert |more.Keys| == |frames.Keys| + |Numbers(fs)|;
  }

  /** New frames, all zero, make an entry that reads as it did without them. */
  lemma AllocateKeepsBlocks(t: Table, frames: map<nat, seq<byte>>, index: nat, fs: seq<nat>, more: map<nat, seq<byte>>)
    requires Sized(t) && Owned(t, frames) && index < |t.live| && !t.live[index]
    requires |fs| == t.np && Gained(frames, fs, t.page, more)
    ensures Owned(Allocated(t, index, fs), more)
    ensures Blocks(Allocated(t, index, fs), more) == Blocks(t, frames)
    ensures |more| == |frames| + t.np
  {
    AllocateKeepsOwned(t, frames, index, fs, more);
    GatherZeros(more, fs, t.page);
    GainedCount(frames, fs, t.page, more);
    var t' := Allocated(t, index, fs);
    forall i | 0 <= i < |t.live|
      ensures BlockAt(t', more, i) == BlockAt(t, frames, i)
    {
      if t.live[i] {
        GatherSame(more, frames, t.pfn[i]);
      }
    }
  }

  /** Writing numbers at an entry that is not allocated changes no block. */
  lemma NumberingKeepsBlocks(t: Table, frames: map<nat, seq<byte>>, index: nat, fs: seq<nat>)
    requires Sized(t) && Owned(t, frames) && index < |t.live| && !t.live[index] && |fs| <= t.np
    ensures var t' := Numbered(t, index, fs);
            Owned(t', frames) && Blocks(t', frames) == Blocks(t, frames)
  {
  }

  /** The longer table that Expand copies the old one to. */
  function Longer(t: Table, count: nat): (r: Table)
    requires Sized(t) && |t.live| <= count
    ensures Sized(r)
    ensures |r.live| == count
  {
    t.(live := t.live + seq(count - |t.live|, _ => false),
       pfn := t.pfn + seq(count - |t.live|, _ => seq(t.np, _ => 0)))
  }

  lemma LongerPads(t: Table, frames: map<nat, seq<byte>>, count: nat)
    requires Sized(t) && Owned(t, frames) && |t.live| <= count
    ensures Owned(Longer(t, count), frames)
    ensures Blocks(Longer(t, count), frames) == Pad(Blocks(t, frames), count, Base(t.np, t.page))
  {
    forall i | 0 <= i < |t.live|
      ensures Longer(t, count).pfn[i] == t.pfn[i]
    {
      BlocksApart(i, |t.live|, t.np);
    }
  }
}
