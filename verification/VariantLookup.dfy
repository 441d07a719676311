/** Looking into containers: Find, Get, At and the list iterator, on any bytes. */
module VariantLookup {
  import opened Results
  import opened VariantCodec
  import opened VariantTree

  /** The linear search of Find and Get. A key that does not fit into the bytes ends it. */
  function LookupKey(kind: Kind, data: seq<u8>, key: Key): Result<Variant>
    decreases |data|
  {
    if data == [] then Err(NOT_FOUND)
    else
      match ReadKey(kind, data)
      case Err(_) => Err(NOT_FOUND)
      case Ok(k) =>
        match FromBuffer(data[k.size..])
        case Err(e) => Err(e)
        case Ok(v) => if k.value == key then Ok(v.value) else LookupKey(kind, data[k.size + v.size..], key)
  }

  /** The search of At. */
  function LookupAt(data: seq<u8>, pos: int): Result<Variant>
    decreases |data|
  {
    if data == [] then Err(NOT_FOUND)
    else
      match FromBuffer(data)
      case Err(e) => Err(e)
      case Ok(v) => if pos == 0 then Ok(v.value) else LookupAt(data[v.size..], pos - 1)
  }

  lemma LookupEmpty(kind: Kind, key: Key)
    ensures LookupKey(kind, [], key) == Err(NOT_FOUND)
  {
  }

  /** One turn of Find. */
  lemma FindTurn(data: seq<u8>, name: seq<u8>)
    requires data != []
    ensures var end := 1 + data[0] as int;
            LookupKey(Map, data, Name(name)) ==
            if |data| < end then Err(NOT_FOUND) else Turn(Map, data, end, data[1..end] == name, Name(name))
  {
    hide FromBuffer, LookupKey, Turn;
    var end := 1 + data[0] as int;
    LookupUnfolds(Map, data, Name(name));
    if |data| >= end {
      assert ReadKey(Map, data) == Ok(Read(Name(data[1..end]), end));
      assert (Name(data[1..end]) == Name(name)) == (data[1..end] == name);
    }
  }

  lemma LookupUnfolds(kind: Kind, data: seq<u8>, key: Key)
    requires data != []
    ensures LookupKey(kind, data, key) ==
            match ReadKey(kind, data) { case Err(_) => Err(NOT_FOUND) case Ok(k) => Turn(kind, data, k.size, k.value == key, key) }
  {
    hide FromBuffer, ReadKey;
  }

  /** One turn of Get. */
  lemma GetTurn(data: seq<u8>, index: nat)
    requires data != []
    ensures LookupKey(Index, data, Number(index)) ==
            if |data| < 4 then Err(NOT_FOUND) else Turn(Index, data, 4, FromLe(data[..4]) == index, Number(index))
  {
    hide FromBuffer, LookupKey, Turn;
    LookupUnfolds(Index, data, Number(index));
    if |data| >= 4 {
      assert ReadKey(Index, data) == Ok(Read(Number(FromLe(data[..4])), 4));
    }
  }

  /** A turn once the key has been read: the value is decoded whether it is the one or is to be skipped. */
  function Turn(kind: Kind, data: seq<u8>, keySize: nat, found: bool, key: Key): Result<Variant>
    requires keySize <= |data|
  {
    match FromBuffer(data[keySize..])
    case Err(e) => Err(e)
    case Ok(v) => if found then Ok(v.value) else LookupKey(kind, data[keySize + v.size..], key)
  }

  method Find(v: Variant, name: seq<u8>) returns (r: Result<Variant>)
    ensures r == if v.varType != VAR_MAP then Err(TYPE_MISMATCH) else LookupKey(Map, v.data, Name(name))
  {
    hide LookupKey, FromBuffer;
    if v.varType != VAR_MAP { return Err(TYPE_MISMATCH); }
    LookupEmpty(Map, Name(name));
    assert v.data[0..] == v.data;
    var offset := 0;
    while offset < |v.data|
      invariant 0 <= offset <= |v.data|
      invariant LookupKey(Map, v.data[offset..], Name(name)) == LookupKey(Map, v.data, Name(name))
    {
      ghost var before := v.data[offset..];
      FindTurn(before, name);
      var keyLen: nat := v.data[offset] as int;
      offset := offset + 1;
      if offset + keyLen > |v.data| { return Err(NOT_FOUND); }
      var key := v.data[offset..offset + keyLen];
      assert key == before[1..1 + keyLen];
      offset := offset + keyLen;
      var value := FromBuffer(v.data[offset..]);
      assert v.data[offset..] == before[1 + keyLen..];
      if key == name {
        if value.Err? { return Err(value.code); }
        return Ok(value.value.value);
      }
      if value.Err? { return Err(value.code); }
      offset := offset + value.value.size;
      assert v.data[offset..] == before[1 + keyLen + value.value.size..];
    }
    assert v.data[offset..] == [];
    return Err(NOT_FOUND);
  }

  method Get(v: Variant, index: nat) returns (r: Result<Variant>)
    ensures r == if v.varType != VAR_INDEX then Err(TYPE_MISMATCH) else LookupKey(Index, v.data, Number(index))
  {
    hide LookupKey, FromBuffer;
    if v.varType != VAR_INDEX { return Err(TYPE_MISMATCH); }
    LookupEmpty(Index, Number(index));
    assert v.data[0..] == v.data;
    var offset := 0;
    while offset < |v.data|
      invariant 0 <= offset <= |v.data|
      invariant LookupKey(Index, v.data[offset..], Number(index)) == LookupKey(Index, v.data, Number(index))
    {
      ghost var before := v.data[offset..];
      GetTurn(before, index);
      if offset + 4 > |v.data| { return Err(NOT_FOUND); }
      var number := FromLe(v.data[offset..offset + 4]);
      assert v.data[offset..offset + 4] == before[..4];
      offset := offset + 4;
      var value := FromBuffer(v.data[offset..]);
      assert v.data[offset..] == before[4..];
      if number == index {
        if value.Err? { return Err(value.code); }
        return Ok(value.value.value);
      }
      if value.Err? { return Err(value.code); }
      offset := offset + value.value.size;
      assert v.data[offset..] == before[4 + value.value.size..];
    }
    assert v.data[offset..] == [];
    return Err(NOT_FOUND);
  }

  method At(v: Variant, pos: int) returns (r: Result<Variant>)
    ensures r == if v.varType != VAR_LIST then Err(TYPE_MISMATCH) else LookupAt(v.data, pos)
  {
    hide FromBuffer;
    if v.varType != VAR_LIST { return Err(TYPE_MISMATCH); }
    assert v.data[0..] == v.data;
    var offset, currentPos := 0, 0;
    while offset < |v.data|
      invariant 0 <= offset <= |v.data|
      invariant LookupAt(v.data[offset..], pos - currentPos) == LookupAt(v.data, pos)
    {
      ghost var before := v.data[offset..];
      var value := FromBuffer(v.data[offset..]);
      if value.Err? { return Err(value.code); }
      if currentPos == pos { return Ok(value.value.value); }
      offset := offset + value.value.size;
      assert v.data[offset..] == before[value.value.size..];
      currentPos := currentPos + 1;
    }
    assert v.data[offset..] == [];
    return Err(NOT_FOUND);
  }

  // ----- lookups read no further than the entry found

  /** Where the entry ends that a lookup finds. */
  function FoundEnd(kind: Kind, data: seq<u8>, key: Key): (r: nat)
    requires LookupKey(kind, data, key).Ok?
    ensures r <= |data|
    decreases |data|
  {
    var e := ReadEntry(kind, data).value;
    if e.value.key == key then e.size else e.size + FoundEnd(kind, data[e.size..], key)
  }

  lemma LookupTurn(kind: Kind, data: seq<u8>, key: Key)
    requires ReadEntry(kind, data).Ok?
    ensures var r := ReadEntry(kind, data).value;
            LookupKey(kind, data, key) == if r.value.key == key then Ok(r.value.value) else LookupKey(kind, data[r.size..], key)
  {
    hide FromBuffer, ReadKey;
  }

  lemma FoundReads(kind: Kind, data: seq<u8>, key: Key)
    requires LookupKey(kind, data, key).Ok?
    ensures data != [] && ReadEntry(kind, data).Ok?
  {
    hide FromBuffer, ReadKey;
  }

  /** Whatever stands behind the entry found, Find and Get find it. */
  lemma {:induction false} LookupExtends(kind: Kind, data: seq<u8>, key: Key, rest: seq<u8>)
    requires LookupKey(kind, data, key).Ok?
    ensures LookupKey(kind, data[..FoundEnd(kind, data, key)] + rest, key) == LookupKey(kind, data, key)
    decreases |data|
  {
    hide ReadEntry, LookupKey;
    FoundReads(kind, data, key);
    LookupTurn(kind, data, key);
    var e := ReadEntry(kind, data).value;
    var end := FoundEnd(kind, data, key);
    var now := data[..end] + rest;
    assert now == data[..e.size] + (data[e.size..end] + rest);
    EntryExtends(kind, data, []);
    EntryExtends(kind, data[..e.size], data[e.size..end] + rest);
    LookupTurn(kind, now, key);
    if e.value.key != key {
      LookupExtends(kind, data[e.size..], key, rest);
      assert now[e.size..] == data[e.size..][..end - e.size] + rest;
    }
  }

  // ----- the iterator

  class VariantIterator {
    const data: seq<u8>
    var offset: nat

    constructor (data: seq<u8>)
      ensures this.data == data && offset == 0
    {
      this.data, this.offset := data, 0;
    }

    /** Next moves on exactly when a value can be read at the offset, and returns that value. */
    method Next() returns (v: Option<Variant>)
      modifies this`offset
      ensures match Step(data, old(offset)) { case None => v.None? && offset == old(offset) case Some(r) => v == Some(r.value) && offset == old(offset) + r.size }
    {
      if offset >= |data| { return None; }
      var r := FromBuffer(data[offset..]);
      if r.Err? { return None; }
      offset := offset + r.value.size;
      return Some(r.value.value);
    }
  }

  /** What Next finds at an offset. */
  function Step(data: seq<u8>, offset: nat): (r: Option<Read<Variant>>)
    ensures r.Some? ==> 0 < r.value.size && offset + r.value.size <= |data|
  {
    if offset >= |data| || FromBuffer(data[offset..]).Err? then None else Some(FromBuffer(data[offset..]).value)
  }

  /** Where `count` successful calls of Next lead. */
  function Steps(data: seq<u8>, offset: nat, count: nat): Option<nat>
    decreases count
  {
    if count == 0 then Some(offset)
    else
      match Step(data, offset)
      case None => None
      case Some(r) => Steps(data, offset + r.size, count - 1)
  }

  /** A list of n bytes gives at most n values. */
  lemma {:induction false} StepsBounded(data: seq<u8>, offset: nat, count: nat)
    requires offset <= |data|
    ensures Steps(data, offset, count).Some? ==> offset + count <= Steps(data, offset, count).value <= |data|
    decreases count
  {
    if count > 0 && Step(data, offset).Some? {
      StepsBounded(data, offset + Step(data, offset).value.size, count - 1);
    }
  }

  /** On any bytes, At(k) succeeds exactly when the first k + 1 calls of Next do, and then it is what the last of them returns. */
  lemma {:induction false} AtIsNext(data: seq<u8>, offset: nat, k: nat)
    requires offset <= |data|
    ensures LookupAt(data[offset..], k).Ok? <==> Steps(data, offset, k + 1).Some?
    ensures LookupAt(data[offset..], k).Ok? ==>
              && Steps(data, offset, k).Some? && Step(data, Steps(data, offset, k).value).Some?
              && LookupAt(data[offset..], k).value == Step(data, Steps(data, offset, k).value).value.value
    decreases k
  {
    hide FromBuffer, LookupAt, Step;
    AtTurn(data, offset, k);
    if k > 0 && Step(data, offset).Some? {
      AtIsNext(data, offset + Step(data, offset).value.size, k - 1);
    }
  }

  lemma AtTurn(data: seq<u8>, offset: nat, k: int)
    requires offset <= |data|
    ensures match Step(data, offset)
            case None => LookupAt(data[offset..], k).Err?
            case Some(r) => LookupAt(data[offset..], k) == if k == 0 then Ok(r.value) else LookupAt(data[offset + r.size..], k - 1)
  {
    hide FromBuffer;
    if Step(data, offset).Some? {
      var size := Step(data, offset).value.size;
      assert data[offset..][size..] == data[offset + size..];
    }
  }

  /** A negative position is never found. */
  lemma {:induction false} NegativeNotFound(data: seq<u8>, pos: int)
    requires pos < 0
    ensures LookupAt(data, pos).Err?
    decreases |data|
  {
    if data != [] && FromBuffer(data).Ok? {
      NegativeNotFound(data[FromBuffer(data).value.size..], pos - 1);
    }
  }

  // ----- lookups in what a builder wrote

  /** The bytes of the entries one after the other. */
  function Bytes(entries: seq<Entry<Variant>>): seq<u8>
    requires forall e <- entries :: e.value.varType < TYPE_COUNT
    decreases |entries|
  {
    if entries == [] then [] else WriteEntry(entries[0]) + Bytes(entries[1..])
  }

  ghost predicate AllFit(kind: Kind, entries: seq<Entry<Variant>>) {
    forall e <- entries :: KeyFits(kind, e.key) && Fits(e.value)
  }

  lemma {:induction false} BytesAppend(entries: seq<Entry<Variant>>, e: Entry<Variant>)
    requires e.value.varType < TYPE_COUNT && forall e <- entries :: e.value.varType < TYPE_COUNT
    ensures Bytes(entries + [e]) == Bytes(entries) + WriteEntry(e)
    decreases |entries|
  {
    if entries == [] {
      assert entries + [e] == [e] && [e][1..] == [];
    } else {
      assert (entries + [e])[1..] == entries[1..] + [e];
      BytesAppend(entries[1..], e);
    }
  }

  /** The entry inserted first under a key. */
  function FirstUnder(entries: seq<Entry<Variant>>, key: Key): (r: Option<Variant>)
    ensures r.None? <==> forall e <- entries :: e.key != key
    ensures r.Some? ==> exists i :: 0 <= i < |entries| && entries[i] == Entry(key, r.value) && forall j | 0 <= j < i :: entries[j].key != key
    decreases |entries|
  {
    if entries == [] then None
    else if entries[0].key == key then Some(entries[0].value)
    else
      var r := FirstUnder(entries[1..], key);
      assert r.Some? ==> exists i :: 0 <= i < |entries[1..]| && entries[1..][i] == Entry(key, r.value) && entries[i + 1] == entries[1..][i];
      r
  }

  /** Find and Get return the first entry inserted under the key, and NOT_FOUND exactly when there is none. */
  lemma {:induction false} LookupFirst(kind: Kind, entries: seq<Entry<Variant>>, key: Key)
    requires AllFit(kind, entries)
    ensures LookupKey(kind, Bytes(entries), key) == match FirstUnder(entries, key) { case Some(v) => Ok(v) case None => Err(NOT_FOUND) }
    decreases |entries|
  {
    hide FromBuffer, ReadKey, ReadEntry, WriteEntry, KeyFits, LookupKey;
    LookupEmpty(kind, key);
    if entries != [] {
      var rest := Bytes(entries[1..]);
      var data := Bytes(entries);
      assert entries[0] in entries;
      EntryRoundTrip(kind, entries[0], rest);
      LookupTurn(kind, data, key);
      assert data[|WriteEntry(entries[0])|..] == rest;
      assert forall e <- entries[1..] :: e in entries;
      LookupFirst(kind, entries[1..], key);
    }
  }

  /** At returns the entries in the order they were appended. */
  lemma {:induction false} AtNth(entries: seq<Entry<Variant>>, pos: nat)
    requires AllFit(List, entries)
    ensures LookupAt(Bytes(entries), pos) == if pos < |entries| then Ok(entries[pos].value) else Err(NOT_FOUND)
    decreases |entries|
  {
    hide FromBuffer, ReadEntry, WriteEntry, KeyFits;
    if entries != [] {
      assert entries[0] in entries;
      var rest := Bytes(entries[1..]);
      EntryRoundTrip(List, entries[0], rest);
      ListEntry(Bytes(entries));
      assert Bytes(entries)[|WriteEntry(entries[0])|..] == rest;
      assert forall e <- entries[1..] :: e in entries;
      if pos > 0 { AtNth(entries[1..], pos - 1); }
    }
  }

  /** An entry of a list is its value. */
  lemma ListEntry(data: seq<u8>)
    requires ReadEntry(List, data).Ok?
    ensures var r := ReadEntry(List, data).value;
            data != [] && FromBuffer(data) == Ok(Read(r.value.value, r.size))
  {
    hide FromBuffer;
    assert data[0..] == data;
  }

  // ----- lookups in bytes that cannot be read to the end

  /**
   * When At fails it has passed over as many values as Next would return, no more than the position asks for: the
   * error is NOT_FOUND at the end of the list, and otherwise that of the value which cannot be read.
   */
  lemma {:induction false} AtError(data: seq<u8>, offset: nat, pos: int) returns (n: nat)
    requires offset <= |data| && LookupAt(data[offset..], pos).Err?
    ensures Steps(data, offset, n).Some? && (pos >= 0 ==> n <= pos)
    ensures var end, code := Steps(data, offset, n).value, LookupAt(data[offset..], pos).code;
            end <= |data| && if end == |data| then code == NOT_FOUND else FromBuffer(data[end..]) == Err(code)
    decreases |data| - offset
  {
    hide FromBuffer, LookupAt, Step;
    AtTurn(data, offset, pos);
    n := 0;
    if Step(data, offset).Some? {
      var k := AtError(data, offset + Step(data, offset).value.size, pos - 1);
      n := k + 1;
    } else {
      AtStuck(data, offset, pos);
    }
  }

  lemma AtStuck(data: seq<u8>, offset: nat, pos: int)
    requires offset <= |data| && Step(data, offset).None?
    ensures if offset == |data| then LookupAt(data[offset..], pos) == Err(NOT_FOUND)
            else FromBuffer(data[offset..]).Err? && LookupAt(data[offset..], pos) == Err(FromBuffer(data[offset..]).code)
  {
    hide FromBuffer;
  }

  /**
   * When Find or Get comes to an entry that cannot be read, and has not found the key before it, a key that does not
   * fit into the bytes ends the search with NOT_FOUND, and a value that cannot be read with that value's error.
   */
  lemma {:induction false} LookupMalformed(kind: Kind, entries: seq<Entry<Variant>>, rest: seq<u8>, key: Key)
    requires AllFit(kind, entries) && kind != List && rest != [] && ReadEntry(kind, rest).Err?
    ensures LookupKey(kind, Bytes(entries) + rest, key) ==
            match FirstUnder(entries, key)
            case Some(v) => Ok(v)
            case None =>
              var keySize: nat := if kind == Map then 1 + rest[0] as int else 4;
              if |rest| < keySize then Err(NOT_FOUND) else Err(FromBuffer(rest[keySize..]).code)
    decreases |entries|
  {
    hide FromBuffer, ReadKey, ReadEntry, WriteEntry, KeyFits, LookupKey;
    if entries == [] {
      assert Bytes(entries) + rest == rest;
      LookupStuck(kind, rest, key);
    } else {
      var behind := Bytes(entries[1..]) + rest;
      var data := Bytes(entries) + rest;
      assert entries[0] in entries;
      assert data == WriteEntry(entries[0]) + behind;
      EntryRoundTrip(kind, entries[0], behind);
      LookupTurn(kind, data, key);
      assert data[|WriteEntry(entries[0])|..] == behind;
      assert forall e <- entries[1..] :: e in entries;
      LookupMalformed(kind, entries[1..], rest, key);
    }
  }

  lemma LookupStuck(kind: Kind, data: seq<u8>, key: Key)
    requires kind != List && data != [] && ReadEntry(kind, data).Err?
    ensures var keySize: nat := if kind == Map then 1 + data[0] as int else 4;
            LookupKey(kind, data, key) == if |data| < keySize then Err(NOT_FOUND) else Err(FromBuffer(data[keySize..]).code)
  {
    hide FromBuffer;
  }

  // ----- the builder

  class VariantBuilder {
    const varType: u8
    var buf: seq<u8>
    var err: Option<ErrorCode>

    /** NewMapBuilder, NewListBuilder and NewIndexBuilder. */
    constructor (kind: Kind)
      ensures varType == TypeOf(kind) && buf == [] && err.None?
    {
      varType, buf, err := TypeOf(kind), [], None;
    }

    /** Adds an entry's bytes, or records that the builder is of another type; after an error nothing is added. */
    twostate predicate Added(kind: Kind, e: Entry<Variant>)
      requires e.value.varType < TYPE_COUNT
      reads this
    {
      if old(err).Some? then err == old(err) && buf == old(buf)
      else if varType != TypeOf(kind) then err == Some(TYPE_MISMATCH) && buf == old(buf)
      else err.None? && buf == old(buf) + WriteEntry(e)
    }

    method Insert(name: seq<u8>, value: Variant)
      requires value.varType < TYPE_COUNT
      modifies this`buf, this`err
      ensures Added(Map, Entry(Name(name), value))
    {
      if err.Some? { return; }
      if varType != VAR_MAP { err := Some(TYPE_MISMATCH); return; }
      buf := buf + [(|name| % 256) as u8];
      buf := buf + name;
      buf := buf + Write(value);
      assert buf == old(buf) + WriteEntry(Entry(Name(name), value));
    }

    method Add(index: nat, value: Variant)
      requires value.varType < TYPE_COUNT && index < U32_COUNT
      modifies this`buf, this`err
      ensures Added(Index, Entry(Number(index), value))
    {
      if err.Some? { return; }
      if varType != VAR_INDEX { err := Some(TYPE_MISMATCH); return; }
      buf := buf + Le(index, 4);
      buf := buf + Write(value);
      assert buf == old(buf) + WriteEntry(Entry(Number(index), value));
    }

    method Append(value: Variant)
      requires value.varType < TYPE_COUNT
      modifies this`buf, this`err
      ensures Added(List, Entry(NoKey, value))
    {
      if err.Some? { return; }
      if varType != VAR_LIST { err := Some(TYPE_MISMATCH); return; }
      buf := buf + Write(value);
      assert buf == old(buf) + WriteEntry(Entry(NoKey, value));
    }

    method Build() returns (r: Result<Variant>)
      ensures r == match err { case Some(e) => Err(e) case None => Ok(Variant(varType, buf)) }
    {
      if err.Some? { return Err(err.value); }
      return Ok(Variant(varType, buf));
    }
  }

  lemma BytesEmpty()
    ensures Bytes([]) == []
  {
  }

  /** Building from a list of entries: what comes out reads back to those entries, whatever kind of lookup is used. */
  method BuildAll(kind: Kind, entries: seq<Entry<Variant>>) returns (r: Result<Variant>)
    requires AllFit(kind, entries)
    ensures r == Ok(Variant(TypeOf(kind), Bytes(entries)))
  {
    hide WriteEntry, Bytes;
    var b := new VariantBuilder(kind);
    BytesEmpty();
    var i := 0;
    while i < |entries|
      invariant 0 <= i <= |entries| && b.err.None? && b.varType == TypeOf(kind)
      invariant b.buf == Bytes(entries[..i])
    {
      var e := entries[i];
      assert e in entries;
      match kind {
        case Map => b.Insert(e.key.name, e.value);
        case List => b.Append(e.value);
        case Index => b.Add(e.key.number, e.value);
      }
      BytesAppend(entries[..i], e);
      assert entries[..i + 1] == entries[..i] + [e];
      i := i + 1;
    }
    assert entries[..i] == entries;
    r := b.Build();
  }
}
