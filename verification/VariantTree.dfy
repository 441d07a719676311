/** Nested containers: a value tree, its bytes, and reading the bytes back to any depth. */
module VariantTree {
  import opened Results
  import opened VariantCodec

  datatype Kind = Map | List | Index

  /** What an entry is filed under: a name in a map, a number in an index, nothing in a list. */
  datatype Key = Name(name: seq<u8>) | Number(number: nat) | NoKey

  datatype Entry<T> = Entry(key: Key, value: T)

  datatype Tree = Leaf(value: Variant) | Node(kind: Kind, entries: Forest)

  /** The entries of a container, in order. */
  datatype Forest = Nil | Cons(key: Key, head: Tree, tail: Forest)

  function TypeOf(kind: Kind): u8 {
    match kind
    case Map => VAR_MAP
    case List => VAR_LIST
    case Index => VAR_INDEX
  }

  function KindOf(varType: u8): Option<Kind> {
    if varType == VAR_MAP then Some(Map)
    else if varType == VAR_LIST then Some(List)
    else if varType == VAR_INDEX then Some(Index)
    else None
  }

  // ----- keys

  predicate KeyFits(kind: Kind, key: Key) {
    match kind
    case Map => key.Name? && |key.name| <= 255
    case List => key.NoKey?
    case Index => key.Number? && key.number < U32_COUNT
  }

  /** A name has a length byte, a number four bytes. */
  function WriteKey(key: Key): (r: seq<u8>) {
    match key
    case Name(name) => [(|name| % 256) as u8] + name
    case Number(number) => Le(number, 4)
    case NoKey => []
  }

  function ReadKey(kind: Kind, data: seq<u8>): (r: Result<Read<Key>>)
    ensures r.Ok? ==> r.value.size <= |data|
  {
    match kind
    case Map =>
      if |data| < 1 then Err(BUFFER_TOO_SMALL)
      else
        var end: nat := 1 + data[0] as int;
        if |data| < end then Err(BUFFER_TOO_SMALL) else Ok(Read(Name(data[1..end]), end))
    case List => Ok(Read(NoKey, 0))
    case Index => if |data| < 4 then Err(BUFFER_TOO_SMALL) else Ok(Read(Number(FromLe(data[..4])), 4))
  }

  lemma KeyRoundTrip(kind: Kind, key: Key, rest: seq<u8>)
    requires KeyFits(kind, key)
    ensures ReadKey(kind, WriteKey(key) + rest) == Ok(Read(key, |WriteKey(key)|))
    ensures (WriteKey(key) + rest)[|WriteKey(key)|..] == rest
  {
    Ranges();
    match kind
    case Map => assert (WriteKey(key) + rest)[1..1 + |key.name|] == key.name;
    case List =>
    case Index =>
      LeRoundTrip(key.number, 4);
      assert (WriteKey(key) + rest)[..4] == WriteKey(key);
      Remainder(key.number, U32_COUNT);
  }

  /** A name comes back exactly when its length fits its byte, a number exactly when it fits four. */
  lemma KeyExactly(kind: Kind, key: Key, rest: seq<u8>)
    requires match kind { case Map => key.Name? case List => key.NoKey? case Index => key.Number? }
    ensures ReadKey(kind, WriteKey(key) + rest) == Ok(Read(key, |WriteKey(key)|)) <==> KeyFits(kind, key)
  {
    if KeyFits(kind, key) {
      KeyRoundTrip(kind, key, rest);
    } else if kind == Index {
      Ranges();
      assert (WriteKey(key) + rest)[..4] == WriteKey(key);
      FromLeBounded(WriteKey(key));
    }
  }

  lemma KeyExtends(kind: Kind, data: seq<u8>, rest: seq<u8>)
    requires ReadKey(kind, data).Ok?
    ensures ReadKey(kind, data + rest) == ReadKey(kind, data)
    ensures (data + rest)[ReadKey(kind, data).value.size..] == data[ReadKey(kind, data).value.size..] + rest
    ensures ReadKey(kind, data[..ReadKey(kind, data).value.size]) == ReadKey(kind, data)
  {
    match kind
    case Map =>
      var end := 1 + data[0] as int;
      assert (data + rest)[1..end] == data[1..end] == data[..end][1..end];
    case List =>
    case Index =>
      assert (data + rest)[..4] == data[..4] == data[..4][..4];
  }

  // ----- entries one level deep

  /** One entry: its key, then its value. */
  function ReadEntry(kind: Kind, data: seq<u8>): (r: Result<Read<Entry<Variant>>>)
    ensures r.Ok? ==> |r.value.value.value.data| < r.value.size <= |data|
  {
    match ReadKey(kind, data)
    case Err(e) => Err(e)
    case Ok(key) =>
      match FromBuffer(data[key.size..])
      case Err(e) => Err(e)
      case Ok(v) => Ok(Read(Entry(key.value, v.value), key.size + v.size))
  }

  function WriteEntry(e: Entry<Variant>): seq<u8>
    requires e.value.varType < TYPE_COUNT
  {
    WriteKey(e.key) + Write(e.value)
  }

  lemma EntryRoundTrip(kind: Kind, e: Entry<Variant>, rest: seq<u8>)
    requires KeyFits(kind, e.key) && Fits(e.value)
    ensures ReadEntry(kind, WriteEntry(e) + rest) == Ok(Read(e, |WriteEntry(e)|))
  {
    hide ReadKey, WriteKey, FromBuffer, Write;
    KeyRoundTrip(kind, e.key, Write(e.value) + rest);
    assert WriteEntry(e) + rest == WriteKey(e.key) + (Write(e.value) + rest);
    RoundTrip(e.value, rest);
  }

  /** An entry that can be read does not depend on what comes after it. */
  lemma EntryExtends(kind: Kind, data: seq<u8>, rest: seq<u8>)
    requires ReadEntry(kind, data).Ok?
    ensures ReadEntry(kind, data + rest) == ReadEntry(kind, data)
    ensures ReadEntry(kind, data[..ReadEntry(kind, data).value.size]) == ReadEntry(kind, data)
  {
    hide ReadKey, FromBuffer;
    var k := ReadKey(kind, data).value.size;
    var v := FromBuffer(data[k..]).value.size;
    KeyExtends(kind, data, rest);
    ReadExtends(data[k..], rest);
    KeyExtends(kind, data[..k], data[k..k + v]);
    assert data[..k] + data[k..] == data && data[..k] + data[k..k + v] == data[..k + v];
    assert data[..k + v][k..] == data[k..][..v];
  }

  // ----- trees

  /** A tree as one value: a leaf as it stands, a container with its entries' bytes as payload. */
  function Pack(t: Tree): Variant {
    match t
    case Leaf(v) => v
    case Node(kind, entries) => Variant(TypeOf(kind), Payload(entries))
  }

  function Payload(f: Forest): seq<u8> {
    match f
    case Nil => []
    case Cons(key, head, tail) => WriteAny(key, Pack(head)) + Payload(tail)
  }

  /** WriteEntry for any type number. */
  function WriteAny(key: Key, v: Variant): seq<u8> {
    WriteKey(key) + Write(v.(varType := v.varType % TYPE_COUNT))
  }

  /** Reads a value to any depth. */
  function Unpack(v: Variant): Result<Tree>
    decreases |v.data|, 1
  {
    match KindOf(v.varType)
    case None => Ok(Leaf(v))
    case Some(kind) =>
      match Entries(kind, v.data)
      case Err(e) => Err(e)
      case Ok(entries) => Ok(Node(kind, entries))
  }

  function Entries(kind: Kind, data: seq<u8>): Result<Forest>
    decreases |data|, 0
  {
    if data == [] then Ok(Nil)
    else
      match ReadEntry(kind, data)
      case Err(e) => Err(e)
      case Ok(r) =>
        match Unpack(r.value.value)
        case Err(e) => Err(e)
        case Ok(t) =>
          match Entries(kind, data[r.size..])
          case Err(e) => Err(e)
          case Ok(tail) => Ok(Cons(r.value.key, t, tail))
  }

  function Concat(f: Forest, g: Forest): Forest {
    match f
    case Nil => g
    case Cons(key, head, tail) => Cons(key, head, Concat(tail, g))
  }

  /** Behind bytes that can be read, reading goes on with what follows, and fails as that does. */
  lemma {:induction false} EntriesJoin(kind: Kind, data: seq<u8>, rest: seq<u8>)
    requires Entries(kind, data).Ok?
    ensures Entries(kind, data + rest) ==
            match Entries(kind, rest) { case Err(e) => Err(e) case Ok(g) => Ok(Concat(Entries(kind, data).value, g)) }
    decreases |data|
  {
    hide ReadEntry, Unpack;
    if data == [] {
      assert data + rest == rest;
    } else {
      var size := ReadEntry(kind, data).value.size;
      EntryExtends(kind, data, rest);
      assert (data + rest)[size..] == data[size..] + rest;
      EntriesJoin(kind, data[size..], rest);
    }
  }

  /** Every name, number and payload is within what its field can hold. */
  predicate TreeFits(t: Tree)
    decreases t
  {
    && Fits(Pack(t))
    && match t
       case Leaf(v) => KindOf(v.varType).None?
       case Node(kind, entries) => ForestFits(kind, entries)
  }

  predicate ForestFits(kind: Kind, f: Forest)
    decreases f
  {
    match f
    case Nil => true
    case Cons(key, head, tail) => KeyFits(kind, key) && TreeFits(head) && ForestFits(kind, tail)
  }

  /** Reading a packed tree gives the tree back. */
  lemma {:induction false} UnpackPacked(t: Tree)
    requires TreeFits(t)
    ensures Unpack(Pack(t)) == Ok(t)
    decreases t
  {
    hide Entries, Payload, Fits, ForestFits;
    match t
    case Leaf(v) =>
    case Node(kind, entries) => EntriesOfPayload(kind, entries);
  }

  lemma {:induction false} EntriesOfPayload(kind: Kind, f: Forest)
    requires ForestFits(kind, f)
    ensures Entries(kind, Payload(f)) == Ok(f)
    decreases f
  {
    match f
    case Nil =>
    case Cons(key, head, tail) =>
      UnpackPacked(head);
      EntriesOfPayload(kind, tail);
      FirstEntry(kind, key, Pack(head), Payload(tail));
  }

  /** The first entry of a payload, and what comes after it. */
  lemma FirstEntry(kind: Kind, key: Key, v: Variant, rest: seq<u8>)
    requires KeyFits(kind, key) && Fits(v)
    ensures var data := WriteAny(key, v) + rest;
            ReadEntry(kind, data) == Ok(Read(Entry(key, v), |WriteAny(key, v)|)) && data[|WriteAny(key, v)|..] == rest && data != []
  {
    hide ReadEntry, WriteKey, Write, KeyFits;
    EntryRoundTrip(kind, Entry(key, v), rest);
    assert v.(varType := v.varType % TYPE_COUNT) == v;
    WriteAnyNonempty(key, v);
  }

  lemma WriteAnyNonempty(key: Key, v: Variant)
    ensures |WriteAny(key, v)| > 0
  {
  }

  /** The bytes of a tree, followed by anything, read back to the tree and take exactly as many bytes. */
  lemma TreeRoundTrip(t: Tree, rest: seq<u8>)
    requires TreeFits(t)
    ensures var r := FromBuffer(Write(Pack(t)) + rest);
            r.Ok? && Unpack(r.value.value) == Ok(t) && r.value.size == |Write(Pack(t))|
  {
    RoundTrip(Pack(t), rest);
    UnpackPacked(t);
  }

  // ----- reading, then writing again

  /** The keys and the leaves of a tree fit; its payloads may be of any length. */
  predicate PartsFit(t: Tree)
    decreases t
  {
    match t
    case Leaf(v) => Fits(v) && KindOf(v.varType).None?
    case Node(kind, entries) => EntryPartsFit(kind, entries)
  }

  predicate EntryPartsFit(kind: Kind, f: Forest)
    decreases f
  {
    match f
    case Nil => true
    case Cons(key, head, tail) => KeyFits(kind, key) && PartsFit(head) && EntryPartsFit(kind, tail)
  }

  /** Then the tree fits exactly when its outermost payload does. */
  lemma {:induction false} FitsByPayload(t: Tree)
    requires PartsFit(t)
    ensures TreeFits(t) <==> |Pack(t).data| < U32_COUNT
    decreases t
  {
    match t
    case Leaf(v) =>
    case Node(kind, entries) => if |Payload(entries)| < U32_COUNT { ForestByPayload(kind, entries); }
  }

  lemma {:induction false} ForestByPayload(kind: Kind, f: Forest)
    requires EntryPartsFit(kind, f) && |Payload(f)| < U32_COUNT
    ensures ForestFits(kind, f)
    decreases f
  {
    match f
    case Nil =>
    case Cons(key, head, tail) =>
      FitsByPayload(head);
      ForestByPayload(kind, tail);
  }

  /** What was read to any depth has parts that fit, and packing it at most doubles its length. */
  lemma {:induction false} UnpackedParts(v: Variant)
    requires Fits(v) && Unpack(v).Ok?
    ensures PartsFit(Unpack(v).value) && |Pack(Unpack(v).value).data| <= 2 * |v.data|
    decreases |v.data|, 1
  {
    match KindOf(v.varType)
    case None =>
    case Some(kind) => EntryParts(kind, v.data);
  }

  lemma {:induction false} EntryParts(kind: Kind, data: seq<u8>)
    requires Entries(kind, data).Ok?
    ensures EntryPartsFit(kind, Entries(kind, data).value) && |Payload(Entries(kind, data).value)| <= 2 * |data|
    decreases |data|, 0
  {
    if data != [] {
      var r := ReadEntry(kind, data).value;
      EntryReadFits(kind, data);
      UnpackedParts(r.value.value);
      EntryParts(kind, data[r.size..]);
      PackType(r.value.value);
      EntryGrowth(kind, data, Pack(Unpack(r.value.value).value));
    }
  }

  lemma EntryReadFits(kind: Kind, data: seq<u8>)
    requires ReadEntry(kind, data).Ok?
    ensures var e := ReadEntry(kind, data).value.value;
            KeyFits(kind, e.key) && Fits(e.value)
  {
    Ranges();
    if kind == Index { FromLeBounded(data[..4]); }
    Rewritten(data[ReadKey(kind, data).value.size..], []);
  }

  /** How long a payload the header that was read could announce. */
  lemma HeadRead(buffer: seq<u8>)
    requires FromBuffer(buffer).Ok?
    ensures var r := FromBuffer(buffer).value;
            var d, h := |r.value.data|, r.size - |r.value.data|;
            && (h == 1 ==> d == 0 || d == 1 || d == 2 || d == 4 || d == 8) && (h == 1 && d == 0 ==> r.value.varType == VAR_EMPTY)
            && (h == 2 ==> d < 256) && (h == 3 ==> d < 65536) && (h == 1 || h == 2 || h == 3 || h == 5)
  {
    Ranges();
    var n := ReadSize(buffer, buffer[0]).value.size;
    if n > 0 { FromLeBounded(buffer[1..1 + n]); }
  }

  /** A payload that is at most twice as long makes a value at most twice as long. */
  lemma ValueGrowth(buffer: seq<u8>, v: Variant)
    requires FromBuffer(buffer).Ok? && |v.data| <= 2 * |FromBuffer(buffer).value.value.data|
    requires v.varType == FromBuffer(buffer).value.value.varType < TYPE_COUNT
    ensures |Write(v)| <= 2 * FromBuffer(buffer).value.size
  {
    HeadRead(buffer);
    hide FromBuffer;
    var d := |v.data|;
    assert |Head(v.varType, d)| == if v.varType == VAR_EMPTY || d == 1 || d == 2 || d == 4 || d == 8 then 1
                                   else if d >= 65535 then 5 else if d >= 255 then 3 else 2;
  }

  lemma EntryGrowth(kind: Kind, data: seq<u8>, v: Variant)
    requires ReadEntry(kind, data).Ok?
    requires var r := ReadEntry(kind, data).value; |v.data| <= 2 * |r.value.value.data| && v.varType == r.value.value.varType
    ensures |WriteAny(ReadEntry(kind, data).value.value.key, v)| <= 2 * ReadEntry(kind, data).value.size
  {
    var key := ReadKey(kind, data).value;
    EntryReadFits(kind, data);
    assert |WriteKey(key.value)| == key.size;
    ValueGrowth(data[key.size..], v);
  }

  /**
   * Reading any buffer to any depth and writing it again gives at most twice the bytes. They read back to the same
   * tree exactly when the tree fits, and after what was read it does unless its payload has grown past its length field.
   */
  lemma Reencoded(buffer: seq<u8>, rest: seq<u8>)
    requires FromBuffer(buffer).Ok? && Unpack(FromBuffer(buffer).value.value).Ok?
    ensures var t := Unpack(FromBuffer(buffer).value.value).value;
            var again := FromBuffer(Write(Pack(t)) + rest);
            && |Write(Pack(t))| <= 2 * |buffer|
            && (TreeFits(t) <==> |Pack(t).data| < U32_COUNT)
            && (again.Ok? && Unpack(again.value.value) == Ok(t) <==> TreeFits(t))
            && (TreeFits(t) ==> again.value == Read(Pack(t), |Write(Pack(t))|))
  {
    hide Write, Unpack, Fits, FromBuffer, TreeFits, PartsFit;
    var v := FromBuffer(buffer).value.value;
    var t := Unpack(v).value;
    Rewritten(buffer, []);
    UnpackedParts(v);
    FitsByPayload(t);
    PackType(v);
    ValueGrowth(buffer, Pack(t));
    if TreeFits(t) {
      FitsHere(t);
      TreeRoundTrip(t, rest);
      RoundTrip(Pack(t), rest);
    } else {
      TooLongToReadBack(t, rest);
    }
  }

  lemma FitsHere(t: Tree)
    requires TreeFits(t)
    ensures Fits(Pack(t))
  {
  }

  /** A payload past its length field is cut to less than half, and what is left cannot read to the whole of it. */
  lemma TooLongToReadBack(t: Tree, rest: seq<u8>)
    requires |Pack(t).data| >= U32_COUNT && 0 < Pack(t).varType < TYPE_COUNT
    ensures var again := FromBuffer(Write(Pack(t)) + rest);
            again.Ok? && Unpack(again.value.value) != Ok(t)
  {
    hide Write, Unpack, FromBuffer;
    WrittenRead(Pack(t), rest);
    var v := FromBuffer(Write(Pack(t)) + rest).value.value;
    Rewritten(Write(Pack(t)) + rest, []);
    if Unpack(v) == Ok(t) {
      UnpackedParts(v);
    }
  }

  // ----- a buffer that outgrows its length field

  /** This many copies of one value of 255 bytes under a one-byte length. */
  const COPIES := 16711680

  function Copies(data: seq<u8>, count: nat): seq<u8> {
    if count == 0 then [] else [VAR_BYTES + LEN_FIELD, 255] + data + Copies(data, count - 1)
  }

  function Leaves(data: seq<u8>, count: nat): Forest {
    if count == 0 then Nil else Cons(NoKey, Leaf(Variant(VAR_BYTES, data)), Leaves(data, count - 1))
  }

  /** Each copy is read as it is and written one byte longer. */
  lemma {:induction false} CopiesGrow(data: seq<u8>, count: nat)
    requires |data| == 255
    ensures |Copies(data, count)| == 257 * count && |Payload(Leaves(data, count))| == 258 * count
    ensures Entries(List, Copies(data, count)) == Ok(Leaves(data, count))
  {
    hide FromBuffer, Write;
    if count > 0 {
      CopiesGrow(data, count - 1);
      RewrittenLonger(data);
      var first, rest := [VAR_BYTES + LEN_FIELD, 255] + data, Copies(data, count - 1);
      ReadExtends(first, rest);
      assert first + rest == Copies(data, count) && (first + rest)[257..] == rest && (first + rest)[0..] == first + rest;
      assert Variant(VAR_BYTES, data).(varType := VAR_BYTES % TYPE_COUNT) == Variant(VAR_BYTES, data);
    }
  }

  /** A list of them just below 4 GiB can be read, and what is written for it is past 4 GiB and does not read back. */
  lemma Outgrown(data: seq<u8>)
    requires |data| == 255
    ensures var buffer := [VAR_LIST + LEN_FIELD + LEN32] + Le(257 * COPIES, 4) + Copies(data, COPIES);
            FromBuffer(buffer).Ok? && Unpack(FromBuffer(buffer).value.value) == Ok(Node(List, Leaves(data, COPIES))) && !TreeFits(Node(List, Leaves(data, COPIES)))
  {
    hide FromBuffer, Entries, Announces, Copies, Payload;
    Ranges();
    CopiesGrow(data, COPIES);
    FieldAnnounces(VAR_LIST, 2, 4, 257 * COPIES);
    var head := [VAR_LIST + LEN_FIELD + LEN32] + Le(257 * COPIES, 4);
    AnnouncedRead(head, VAR_LIST, Copies(data, COPIES), []);
    assert head + Copies(data, COPIES) + [] == head + Copies(data, COPIES);
  }

  lemma PackType(v: Variant)
    requires Unpack(v).Ok?
    ensures Pack(Unpack(v).value).varType == v.varType
  {
  }
}
