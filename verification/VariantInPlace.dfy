/**
 * The in-place container builder of the C side: values are written straight into the caller's
 * buffer, behind a header whose width is chosen before the size is known.
 */
module VariantInPlace {
  import opened Results
  import opened VariantCodec
  import opened VariantTree

  /** The header width that Prepare reserves and Finish fills. */
  function HeadSize(maxSize: nat): (r: nat)
    ensures 2 <= r <= 5
  {
    if maxSize >= 65535 then 5 else if maxSize >= 255 then 3 else 2
  }

  /** The header that Finish writes. */
  function FinalHead(varType: u8, maxSize: nat, size: nat): (r: seq<u8>)
    requires varType < TYPE_COUNT
    ensures |r| == HeadSize(maxSize)
  {
    if maxSize >= 65535 then [varType + LEN_FIELD + LEN32] + Le(size, 4)
    else if maxSize >= 255 then [varType + LEN_FIELD + LEN16] + Le(size, 2)
    else [varType + LEN_FIELD + LEN8] + Le(size, 1)
  }

  /** Whatever size is reached, it fits the field. */
  lemma FinalHeadAnnounces(varType: u8, maxSize: nat, size: nat)
    requires 0 < varType < TYPE_COUNT && size <= maxSize < U32_COUNT
    ensures Announces(FinalHead(varType, maxSize, size), varType, size)
  {
    Ranges();
    var form := if maxSize >= 65535 then 2 else if maxSize >= 255 then 1 else 0;
    var width := [1, 2, 4][form];
    FieldAnnounces(varType, form, width, size);
    Remainder(size, Range(width));
  }

  /** memcpy into the buffer. */
  method Copy(buffer: array<u8>, at: nat, bytes: seq<u8>)
    requires at + |bytes| <= buffer.Length
    modifies buffer
    ensures buffer[..] == old(buffer[..at]) + bytes + old(buffer[at + |bytes|..])
  {
    forall i | at <= i < at + |bytes| { buffer[i] := bytes[i - at]; }
    assert buffer[..] == old(buffer[..at]) + bytes + old(buffer[at + |bytes|..]);
  }

  /** Two states of a buffer that differ between `lo` and `hi` at most. */
  ghost predicate SameOutside(b: seq<u8>, b': seq<u8>, lo: nat, hi: nat) {
    |b'| == |b| && lo <= hi <= |b| && b'[..lo] == b[..lo] && b'[hi..] == b[hi..]
  }

  lemma OutsideTwice(b: seq<u8>, b1: seq<u8>, b2: seq<u8>, lo: nat, mid: nat, hi: nat)
    requires SameOutside(b, b1, lo, hi) && SameOutside(b1, b2, mid, hi) && lo <= mid
    ensures SameOutside(b, b2, lo, hi)
  {
    assert b2[..lo] == b2[..mid][..lo] == b1[..mid][..lo] == b1[..lo];
  }

  lemma Unchanged(b: seq<u8>, lo: nat, hi: nat)
    requires lo <= hi <= |b|
    ensures SameOutside(b, b, lo, hi)
  {
  }

  lemma ThreeSlices(s: seq<u8>, i: nat, j: nat, k: nat, l: nat)
    requires i <= j <= k <= l <= |s|
    ensures s[i..l] == s[i..j] + (s[j..k] + s[k..l])
  {
  }

  /** A header put between a payload of `size` bytes at `start` and an entry of `inner` bytes joins the two. */
  lemma EntryFinished(b: seq<u8>, b': seq<u8>, start: nat, size: nat, hi: nat, head: seq<u8>, inner: nat)
    requires start + size + |head| + inner <= hi <= |b| && b' == b[..start + size] + head + b[start + size + |head|..]
    ensures SameOutside(b, b', start + size, hi)
    ensures b'[start..start + size + |head| + inner] == b[start..start + size] + (head + b[start + size + |head|..start + size + |head| + inner])
  {
    var at, end := start + size, start + size + |head|;
    assert |b'| == |b|;
    assert forall k | 0 <= k < |b| :: b'[k] == if at <= k < end then head[k - at] else b[k];
    assert b'[..at] == b[..at] && b'[hi..] == b[hi..];
    ThreeSlices(b', start, at, end, end + inner);
    assert b'[start..at] == b[start..at] && b'[at..end] == head && b'[end..end + inner] == b[end..end + inner];
  }

  /** The same, or nothing at all. */
  lemma EntryAdded(b: seq<u8>, b': seq<u8>, start: nat, size: nat, hi: nat, head: seq<u8>, at: nat, inner: nat, finished: bool, len: nat)
    requires start + size + |head| == at && at + inner <= hi <= |b| && len == (if finished then |head| + inner else 0)
    requires b' == if finished then b[..start + size] + head + b[at..] else b
    ensures SameOutside(b, b', start + size, hi)
    ensures b'[start..start + size + len] == b[start..start + size] + (if finished then head + b[at..at + inner] else [])
  {
    if finished { EntryFinished(b, b', start, size, hi, head, inner); } else { Unchanged(b, start + size, hi); }
  }

  class CVariant {
    const buffer: array<u8>
    const start: nat
    const maxSize: nat
    var size: nat
    var varType: u8
    var badSize: bool
    var badType: bool

    ghost predicate Valid()
      reads this
    {
      start + maxSize <= buffer.Length && size <= maxSize < U32_COUNT && varType < TYPE_COUNT
    }

    predicate Failed()
      reads this
    {
      badSize || badType
    }

    /** The payload so far. */
    ghost function Contents(): (c: seq<u8>)
      requires Valid()
      reads this, buffer
      ensures |c| == size
    {
      buffer[start..start + size]
    }

    /** Variant_Prepare: five bytes of the room are set aside, and the header takes two, three or five of them. */
    constructor Prepare(varType: u8, buffer: array<u8>, at: nat, room: nat)
      requires varType < TYPE_COUNT && 5 <= room < U32_COUNT && at + room <= buffer.Length
      ensures Valid() && this.buffer == buffer && this.varType == varType && size == 0 && !Failed()
      ensures maxSize == room - 5 && start == at + HeadSize(maxSize)
    {
      this.buffer, this.varType, this.size, this.badSize, this.badType := buffer, varType, 0, false, false;
      this.maxSize := room - 5;
      this.start := at + HeadSize(room - 5);
    }

    /** Puts bytes behind the payload. */
    method Put(bytes: seq<u8>)
      requires Valid() && size + |bytes| <= maxSize
      modifies this`size, buffer
      ensures Valid() && size == old(size) + |bytes| && Contents() == old(Contents()) + bytes
      ensures SameOutside(old(buffer[..]), buffer[..], start + old(size), start + maxSize)
    {
      Copy(buffer, start + size, bytes);
      size := size + |bytes|;
    }

    /** A value that is given follows its key; a key alone is for an entry to be built in place. */
    function Following(varType: u8, data: Option<seq<u8>>): seq<u8>
      requires varType < TYPE_COUNT
    {
      match data
      case None => []
      case Some(d) => Write(Variant(varType, d))
    }

    function Length(data: Option<seq<u8>>): nat {
      match data
      case None => 0
      case Some(d) => |d|
    }

    /**
     * The capacity check counts `counted` bytes, which is less than the key and the value can take. What it lets
     * pass stays in the room when it is refused, or there is room for all that is written.
     */
    predicate Ample(key: Key, counted: nat, varType: u8, data: Option<seq<u8>>)
      requires size <= maxSize && varType < TYPE_COUNT
      reads this
    {
      maxSize - size >= counted ==> maxSize - size >= |WriteKey(key)| + |Following(varType, data)|
    }

    /** What an insertion does: refused for the type, refused for the room, or the key and the value behind the payload. */
    twostate predicate Entered(kind: Kind, key: Key, counted: nat, varType: u8, data: Option<seq<u8>>)
      requires old(Valid()) && Valid() && varType < TYPE_COUNT
      reads this, buffer
    {
      var right := old(this.varType) == VAR_EMPTY || old(this.varType) == TypeOf(kind);
      var room := maxSize - old(size) >= counted;
      && this.varType == (if right then TypeOf(kind) else old(this.varType))
      && badType == (old(badType) || !right) && badSize == (old(badSize) || (right && !room))
      && Contents() == old(Contents()) + (if right && room then WriteKey(key) + Following(varType, data) else [])
      && SameOutside(old(buffer[..]), buffer[..], start + old(size), start + maxSize)
    }

    /** Variant_InsertRaw. Where `inRoom` is false the code writes past the room, and nothing is promised. */
    method InsertRaw(name: seq<u8>, varType: u8, data: Option<seq<u8>>) returns (inRoom: bool)
      requires Valid() && varType < TYPE_COUNT
      modifies this, buffer
      ensures inRoom <==> old(Ample(Name(name), 1 + |name| + 1 + Length(data), varType, data)) || (old(this.varType) != VAR_EMPTY && old(this.varType) != VAR_MAP)
      ensures inRoom ==> Valid() && Entered(Map, Name(name), 1 + |name| + 1 + Length(data), varType, data)
    {
      if this.varType == VAR_EMPTY { this.varType := VAR_MAP; }
      else if this.varType != VAR_MAP { badType := true; return true; }
      if maxSize - size < 1 + |name| + 1 + Length(data) { badSize := true; return true; }
      if maxSize - size < |WriteKey(Name(name))| + |Following(varType, data)| { return false; }
      PutEntry(Name(name), varType, data);
      return true;
    }

    /** Variant_AddRaw */
    method AddRaw(index: nat, varType: u8, data: Option<seq<u8>>) returns (inRoom: bool)
      requires Valid() && varType < TYPE_COUNT
      modifies this, buffer
      ensures inRoom <==> old(Ample(Number(index), 4 + Length(data), varType, data)) || (old(this.varType) != VAR_EMPTY && old(this.varType) != VAR_INDEX)
      ensures inRoom ==> Valid() && Entered(Index, Number(index), 4 + Length(data), varType, data)
    {
      if this.varType == VAR_EMPTY { this.varType := VAR_INDEX; }
      else if this.varType != VAR_INDEX { badType := true; return true; }
      if maxSize - size < 4 + Length(data) { badSize := true; return true; }
      if maxSize - size < |WriteKey(Number(index))| + |Following(varType, data)| { return false; }
      PutEntry(Number(index), varType, data);
      return true;
    }

    /** Variant_AppendRaw */
    method AppendRaw(varType: u8, data: Option<seq<u8>>) returns (inRoom: bool)
      requires Valid() && varType < TYPE_COUNT
      modifies this, buffer
      ensures inRoom <==> old(Ample(NoKey, Length(data), varType, data)) || (old(this.varType) != VAR_EMPTY && old(this.varType) != VAR_LIST)
      ensures inRoom ==> Valid() && Entered(List, NoKey, Length(data), varType, data)
    {
      if this.varType == VAR_EMPTY { this.varType := VAR_LIST; }
      else if this.varType != VAR_LIST { badType := true; return true; }
      if maxSize - size < Length(data) { badSize := true; return true; }
      if maxSize - size < |WriteKey(NoKey)| + |Following(varType, data)| { return false; }
      PutEntry(NoKey, varType, data);
      return true;
    }

    /** The key, then Variant_WriteRaw. */
    method PutEntry(key: Key, varType: u8, data: Option<seq<u8>>)
      requires Valid() && varType < TYPE_COUNT
      requires maxSize - size >= |WriteKey(key)| + |Following(varType, data)|
      modifies this`size, buffer
      ensures Valid() && Contents() == old(Contents()) + (WriteKey(key) + Following(varType, data))
      ensures SameOutside(old(buffer[..]), buffer[..], start + old(size), start + maxSize)
    {
      hide WriteKey, Write, SameOutside;
      ghost var b0, s0 := buffer[..], size;
      Put(WriteKey(key));
      if data.Some? {
        ghost var b1, s1 := buffer[..], size;
        WriteRaw(varType, data.value);
        OutsideTwice(b0, b1, buffer[..], start + s0, start + s1, start + maxSize);
      }
    }

    /** Variant_WriteRaw */
    method WriteRaw(varType: u8, data: seq<u8>)
      requires Valid() && varType < TYPE_COUNT && maxSize - size >= |Write(Variant(varType, data))|
      modifies this`size, buffer
      ensures Valid() && Contents() == old(Contents()) + Write(Variant(varType, data))
      ensures SameOutside(old(buffer[..]), buffer[..], start + old(size), start + maxSize)
    {
      hide Head, SameOutside;
      ghost var b0, s0 := buffer[..], size;
      Put(Head(varType, |data|));
      ghost var b1, s1 := buffer[..], size;
      Put(data);
      OutsideTwice(b0, b1, buffer[..], start + s0, start + s1, start + maxSize);
    }

    /** Variant_PrepareEntry */
    method PrepareEntry(varType: u8) returns (entry: CVariant)
      requires Valid() && varType < TYPE_COUNT && maxSize - size >= 5
      ensures fresh(entry) && entry.Valid() && entry.buffer == buffer && entry.varType == varType && entry.size == 0 && !entry.Failed()
      ensures entry.maxSize == maxSize - size - 5 && entry.start == start + size + HeadSize(entry.maxSize)
    {
      entry := new CVariant.Prepare(varType, buffer, start + size, maxSize - size);
    }

    /** Variant_Finish: the header goes in front of the payload, unless there is an error or no type. */
    method Finish(at: nat) returns (len: nat)
      requires Valid() && at + HeadSize(maxSize) == start
      modifies buffer
      ensures Contents() == old(Contents())
      ensures if Failed() || varType == VAR_EMPTY then len == 0 && buffer[..] == old(buffer[..])
              else len == HeadSize(maxSize) + size && buffer[..] == old(buffer[..at]) + FinalHead(varType, maxSize, size) + old(buffer[start..])
    {
      if Failed() || varType == VAR_EMPTY { return 0; }
      var head := FinalHead(varType, maxSize, size);
      Copy(buffer, at, head);
      len := |head| + size;
    }

    /** Variant_FinishEntry: the finished entry becomes part of the payload. */
    method FinishEntry(entry: CVariant)
      requires Valid() && entry.Valid() && entry != this && entry.buffer == buffer && size + 5 + entry.maxSize <= maxSize
      requires entry.start == start + size + HeadSize(entry.maxSize)
      modifies this`size, buffer
      ensures Valid()
      ensures SameOutside(old(buffer[..]), buffer[..], start + old(size), start + maxSize)
      ensures Contents() == old(Contents()) + (if entry.Failed() || entry.varType == VAR_EMPTY then []
                                               else FinalHead(entry.varType, entry.maxSize, entry.size) + old(entry.Contents()))
    {
      hide FinalHead, SameOutside, Contents, Failed;
      ghost var b := buffer[..];
      ContentsAre(this);
      ContentsAre(entry);
      var len := entry.Finish(start + size);
      EntryAdded(b, buffer[..], start, size, start + maxSize,
                 FinalHead(entry.varType, entry.maxSize, entry.size), entry.start, entry.size, !(entry.Failed() || entry.varType == VAR_EMPTY), len);
      size := size + len;
      ContentsAre(this);
    }
  }

  lemma ContentsAre(v: CVariant)
    requires v.Valid()
    ensures v.Contents() == v.buffer[..][v.start..v.start + v.size]
  {
  }

  /** A value never fits the room that the check for a list asks for. */
  lemma HeaderNotCounted(v: CVariant, varType: u8, data: seq<u8>)
    requires v.Valid() && varType < TYPE_COUNT && v.maxSize - v.size == |data|
    ensures !v.Ample(NoKey, v.Length(Some(data)), varType, Some(data))
  {
    assert |v.Following(varType, Some(data))| == |Write(Variant(varType, data))| > |data|;
  }
}
