/**
 * Page frames and the one address range they are mapped into: the part of the
 * Windows AWE interface that CPhysicalMemoryIO uses.
 */
module AddressWindow {
  import opened Bytes
  import opened SparseDiskTable

  ghost predicate Distinct(fs: seq<nat>) {
    forall i, k | 0 <= i < k < |fs| :: fs[i] != fs[k]
  }

  ghost predicate Apart(fs: seq<nat>, gs: seq<nat>) {
    forall f | f in fs :: f !in gs
  }

  ghost predicate Held(m: map<nat, seq<byte>>, fs: seq<nat>, page: nat) {
    forall i | 0 <= i < |fs| :: fs[i] in m && |m[fs[i]]| == page
  }

  /** The bytes of some frames, one after the other. */
  function Gather(m: map<nat, seq<byte>>, fs: seq<nat>): seq<byte>
    requires forall i | 0 <= i < |fs| :: fs[i] in m
  {
    if fs == [] then [] else m[fs[0]] + Gather(m, fs[1..])
  }

  /** The frames after `data` is laid over some of them. */
  function Scatter(m: map<nat, seq<byte>>, fs: seq<nat>, page: nat, data: seq<byte>): (r: map<nat, seq<byte>>)
    requires |data| == Base(|fs|, page)
    ensures r.Keys == m.Keys + set f | f in fs
    decreases |fs|
  {
    if fs == [] then m
    else
      BlocksApart(|fs| - 1, |fs|, page);
      Scatter(m[fs[0] := data[..page]], fs[1..], page, data[page..])
  }

  lemma {:induction false} GatherLength(m: map<nat, seq<byte>>, fs: seq<nat>, page: nat)
    requires Held(m, fs, page)
    ensures |Gather(m, fs)| == Base(|fs|, page)
  {
    if fs != [] {
      BlocksApart(|fs| - 1, |fs|, page);
      assert Held(m, fs[1..], page);
      GatherLength(m, fs[1..], page);
    }
  }

  lemma {:induction false} GatherSame(m: map<nat, seq<byte>>, m': map<nat, seq<byte>>, fs: seq<nat>)
    requires forall i | 0 <= i < |fs| :: fs[i] in m && fs[i] in m' && m[fs[i]] == m'[fs[i]]
    ensures Gather(m, fs) == Gather(m', fs)
  {
    if fs != [] {
      GatherSame(m, m', fs[1..]);
    }
  }

  /** Frames not written keep their bytes. */
  lemma {:induction false} ScatterOther(m: map<nat, seq<byte>>, fs: seq<nat>, page: nat, data: seq<byte>, g: nat)
    requires |data| == Base(|fs|, page) && g !in fs && g in m
    ensures Scatter(m, fs, page, data)[g] == m[g]
    decreases |fs|
  {
    if fs != [] {
      BlocksApart(|fs| - 1, |fs|, page);
      ScatterOther(m[fs[0] := data[..page]], fs[1..], page, data[page..], g);
    }
  }

  lemma ScatterApart(m: map<nat, seq<byte>>, fs: seq<nat>, page: nat, data: seq<byte>, gs: seq<nat>)
    requires |data| == Base(|fs|, page) && Apart(gs, fs)
    requires forall i | 0 <= i < |gs| :: gs[i] in m
    ensures Gather(Scatter(m, fs, page, data), gs) == Gather(m, gs)
  {
    forall i | 0 <= i < |gs|
      ensures Scatter(m, fs, page, data)[gs[i]] == m[gs[i]]
    {
      ScatterOther(m, fs, page, data, gs[i]);
    }
    GatherSame(m, Scatter(m, fs, page, data), gs);
  }

  /** What is laid over distinct frames is what they then hold. */
  lemma {:induction false} GatherScatter(m: map<nat, seq<byte>>, fs: seq<nat>, page: nat, data: seq<byte>)
    requires |data| == Base(|fs|, page) && Distinct(fs)
    ensures Held(Scatter(m, fs, page, data), fs, page)
    ensures Gather(Scatter(m, fs, page, data), fs) == data
    decreases |fs|
  {
    if fs != [] {
      BlocksApart(|fs| - 1, |fs|, page);
      var m1 := m[fs[0] := data[..page]];
      GatherScatter(m1, fs[1..], page, data[page..]);
      ScatterOther(m1, fs[1..], page, data[page..], fs[0]);
      var r := Scatter(m, fs, page, data);
      assert forall i | 0 < i < |fs| :: fs[i] == fs[1..][i - 1];
      assert data == data[..page] + data[page..];
    }
  }

  /** Laying back what was gathered changes nothing. */
  lemma {:induction false} ScatterGather(m: map<nat, seq<byte>>, fs: seq<nat>, page: nat)
    requires Held(m, fs, page)
    ensures |Gather(m, fs)| == Base(|fs|, page)
    ensures Scatter(m, fs, page, Gather(m, fs)) == m
    decreases |fs|
  {
    GatherLength(m, fs, page);
    if fs != [] {
      assert Held(m, fs[1..], page);
      GatherLength(m, fs[1..], page);
      assert Gather(m, fs)[..page] == m[fs[0]] && Gather(m, fs)[page..] == Gather(m, fs[1..]);
      assert m[fs[0] := m[fs[0]]] == m;
      ScatterGather(m, fs[1..], page);
    }
  }

  function Numbers(fs: seq<nat>): (r: set<nat>) {
    set f | f in fs
  }

  /** `more` is `frames` with the new, zero frames fs. */
  ghost predicate Gained(frames: map<nat, seq<byte>>, fs: seq<nat>, page: nat, more: map<nat, seq<byte>>) {
    && Distinct(fs) && (forall f | f in fs :: f !in frames)
    && more.Keys == frames.Keys + Numbers(fs)
    && forall f | f in more :: more[f] == if f in fs then Zeros(page) else frames[f]
  }

  /** Giving the new frames back leaves those there were. */
  lemma GivenBack(frames: map<nat, seq<byte>>, fs: seq<nat>, page: nat, more: map<nat, seq<byte>>)
    requires Gained(frames, fs, page, more)
    ensures more - Numbers(fs) == frames
  {
  }

  lemma GainNone(frames: map<nat, seq<byte>>, page: nat)
    ensures Gained(frames, [], page, frames)
  {
  }

  lemma GainOne(frames: map<nat, seq<byte>>, fs: seq<nat>, page: nat, more: map<nat, seq<byte>>, f: nat)
    requires Gained(frames, fs, page, more) && f !in more
    ensures Gained(frames, fs + [f], page, more[f := Zeros(page)])
  {
    assert Numbers(fs + [f]) == Numbers(fs) + {f};
  }

  /** There is always a frame number not in use. */
  lemma {:induction false} FreshFrame(s: set<nat>) returns (f: nat)
    ensures forall g | g in s :: g < f
    decreases s
  {
    if s == {} {
      f := 0;
    } else {
      var x :| x in s;
      var f0 := FreshFrame(s - {x});
      f := if x < f0 then f0 else x + 1;
      assert s == (s - {x}) + {x};
    }
  }

  /** The process's page frames, and the window through which they are reached. */
  class Window {
    const page: nat                    // sys.dwPageSize
    const view: array<byte>            // the MEM_PHYSICAL range, virtual_mem_ptr
    var held: map<nat, seq<byte>>      // frames of the process, as they were when last not mapped
    var mapped: seq<nat>               // the frames that the view shows

    ghost predicate Valid()
      reads this
    {
      && page > 0
      && (forall f | f in held :: |held[f]| == page)
      && Distinct(mapped)
      && (mapped != [] ==> Base(|mapped|, page) == view.Length)
      && (forall i | 0 <= i < |mapped| :: mapped[i] in held)
    }

    /** Every frame with its bytes: a mapped frame is the part of the view that shows it. */
    ghost function Frames(): (m: map<nat, seq<byte>>)
      requires Valid()
      reads this, view
      ensures m.Keys == held.Keys && |m| == |held|
    {
      var m := if mapped == [] then held else Scatter(held, mapped, page, view[..]);
      assert m.Keys == held.Keys && |m.Keys| == |held.Keys|;
      m
    }

    lemma FramesHeld()
      requires Valid()
      ensures forall f | f in Frames() :: |Frames()[f]| == page
      ensures mapped != [] ==> Gather(Frames(), mapped) == view[..]
    {
      if mapped != [] {
        GatherScatter(held, mapped, page, view[..]);
        forall f | f in held
          ensures |Frames()[f]| == page
        {
          if f !in mapped { ScatterOther(held, mapped, page, view[..], f); }
        }
      }
    }

    constructor (page: nat, size: nat)
      requires page > 0
      ensures Valid() && fresh(view) && this.page == page && view.Length == size
      ensures Frames() == map[] && mapped == []
    {
      this.page := page;
      view := new byte[size];
      held := map[];
      mapped := [];
    }

    /** Puts the bytes of the mapped frames back where they are kept when not mapped. */
    method Unmap()
      requires Valid()
      modifies this
      ensures Valid() && mapped == [] && held == old(Frames()) && Frames() == old(Frames())
    {
      FramesHeld();
      if mapped != [] {
        held := Scatter(held, mapped, page, view[..]);
        mapped := [];
      }
    }

    /** MapUserPhysicalPages: the view shows exactly these frames. */
    method Map(frames: seq<nat>)
      requires Valid() && Distinct(frames) && frames != []
      requires Base(|frames|, page) == view.Length
      requires forall i | 0 <= i < |frames| :: frames[i] in held
      modifies this, view
      ensures Valid() && mapped == frames && Frames() == old(Frames())
      ensures view[..] == Gather(Frames(), frames)
    {
      Unmap();
      GatherLength(held, frames, page);
      ScatterGather(held, frames, page);
      ghost var before := held;
      var bytes := Gather(held, frames);
      forall i | 0 <= i < view.Length {
        view[i] := bytes[i];
      }
      assert view[..] == bytes;
      mapped := frames;
    }

    /** FreeUserPhysicalPages: the frames are given back, and the view loses them. */
    method Free(frames: seq<nat>)
      requires Valid()
      modifies this
      ensures Valid() && mapped == []
      ensures Frames() == old(Frames()) - Numbers(frames)
    {
      Unmap();
      held := held - Numbers(frames);
    }

    /** One more frame of zeros, with a number not in use. */
    method AddFrame() returns (f: nat)
      requires Valid() && mapped == []
      modifies this`held
      ensures Valid() && f !in old(held) && held == old(held)[f := Zeros(page)]
    {
      ghost var top := FreshFrame(held.Keys);
      assert top !in held;
      f :| f !in held;
      held := held[f := Zeros(page)];
    }

    /** AllocateUserPhysicalPages: some number of new frames, all zero. */
    method Allocate(count: nat) returns (frames: seq<nat>)
      requires Valid()
      modifies this
      ensures Valid() && |frames| == count && Gained(old(Frames()), frames, page, Frames())
    {
      hide Gained;
      Unmap();
      ghost var before := held;
      frames := [];
      GainNone(before, page);
      while |frames| < count
        invariant Valid() && mapped == [] && |frames| <= count && Gained(before, frames, page, held)
      {
        ghost var held0 := held;
        var f := AddFrame();
        GainOne(before, frames, page, held0, f);
        frames := frames + [f];
      }
    }
  }
}
