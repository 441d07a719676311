/**
 * What the entries of a container look like when some of them were lost: an entry that is not finished leaves
 * its key behind. Such bytes are never read as what was meant, whatever follows the key.
 */
module VariantItems {
  import opened Results
  import opened VariantCodec
  import opened VariantTree

  /** The entries of a container in the order they were written. */
  datatype Items = End | Item(key: Key, body: Body, rest: Items)

  /** A value, a container built in place under a header of some width, or nothing at all where a container was meant. */
  datatype Body = Scalar(value: Variant) | Nested(kind: Kind, form: nat, items: Items) | Lost(kind: Kind, meant: Forest)

  function Width(form: nat): (r: nat)
    ensures r == 1 || r == 2 || r == 4
  {
    if form == 0 then 1 else if form == 1 then 2 else 4
  }

  function NestedHead(kind: Kind, form: nat, length: nat): (r: seq<u8>)
    requires form < 3
    ensures |r| == 1 + Width(form)
  {
    [TypeOf(kind) + 32 + 64 * form] + Le(length, Width(form))
  }

  function ItemBytes(items: Items): seq<u8> {
    match items
    case End => []
    case Item(key, body, rest) => WriteKey(key) + BodyBytes(body) + ItemBytes(rest)
  }

  function BodyBytes(body: Body): seq<u8> {
    match body
    case Scalar(v) => Write(v.(varType := v.varType % TYPE_COUNT))
    case Nested(kind, form, items) => NestedHead(kind, form % 3, |ItemBytes(items)|) + ItemBytes(items)
    case Lost(_, _) => []
  }

  /** What was meant to be in the container. */
  function Meant(items: Items): Forest {
    match items
    case End => Nil
    case Item(key, body, rest) => Cons(key, MeantBody(body), Meant(rest))
  }

  function MeantBody(body: Body): Tree {
    match body
    case Scalar(v) => Leaf(v)
    case Nested(kind, _, items) => Node(kind, Meant(items))
    case Lost(kind, meant) => Node(kind, meant)
  }

  predicate NoneLost(items: Items) {
    match items
    case End => true
    case Item(_, body, rest) =>
      && (match body case Scalar(_) => true case Nested(_, _, inner) => NoneLost(inner) case Lost(_, _) => false)
      && NoneLost(rest)
  }

  /** Keys fit their container, values are scalars that fit, and a payload fits the length field in front of it. */
  predicate ItemsFit(kind: Kind, items: Items)
    decreases items
  {
    match items
    case End => true
    case Item(key, body, rest) => KeyFits(kind, key) && BodyFits(body) && ItemsFit(kind, rest)
  }

  predicate BodyFits(body: Body)
    decreases body
  {
    match body
    case Scalar(v) => Fits(v) && KindOf(v.varType).None?
    case Nested(kind, form, items) => form < 3 && |ItemBytes(items)| < Range(Width(form)) && ItemsFit(kind, items)
    case Lost(_, _) => true
  }

  /** A body as one value. */
  function BodyValue(body: Body): Variant {
    match body
    case Scalar(v) => v
    case Nested(kind, _, items) => Variant(TypeOf(kind), ItemBytes(items))
    case Lost(_, _) => Variant(VAR_EMPTY, [])
  }

  /** Its header: the type byte, and the length field if it has one. */
  function BodyHead(body: Body): seq<u8> {
    match body
    case Scalar(v) => Head(v.varType % TYPE_COUNT, |v.data|)
    case Nested(kind, form, items) => NestedHead(kind, form % 3, |ItemBytes(items)|)
    case Lost(_, _) => []
  }

  lemma BodyParts(body: Body)
    requires BodyFits(body) && !body.Lost?
    ensures BodyBytes(body) == BodyHead(body) + BodyValue(body).data && 1 <= |BodyHead(body)| <= 5
    ensures BodyValue(body).varType < TYPE_COUNT
    ensures var field := BodyHead(body)[1..]; field == [] || FromLe(field) == |BodyValue(body).data|
    ensures |BodyHead(body)| > 1 ==> BodyValue(body).varType > 0
  {
    hide ItemBytes, WriteKey, Le, FromLe, Range;
    match body
    case Scalar(v) => ScalarHead(v.varType, |v.data|);
    case Nested(kind, form, items) =>
      LeRoundTrip(|ItemBytes(items)|, Width(form));
      Remainder(|ItemBytes(items)|, Range(Width(form)));
      assert BodyHead(body)[1..] == Le(|ItemBytes(items)|, Width(form));
  }

  lemma ScalarHead(varType: u8, length: nat)
    requires varType < TYPE_COUNT && length < U32_COUNT
    ensures var field := Head(varType, length)[1..]; field == [] || FromLe(field) == length
    ensures varType == VAR_EMPTY ==> |Head(varType, length)| == 1
  {
    hide Le, FromLe, Range;
    Ranges();
    LeRoundTrip(length, 1);
    LeRoundTrip(length, 2);
    LeRoundTrip(length, 4);
    Remainder(length, U32_COUNT);
    if length < 0x1_0000 { Remainder(length, 0x1_0000); }
    if length < 0x100 { Remainder(length, 0x100); }
  }

  /** Reading a body gives its value and takes exactly its bytes, whatever follows. */
  lemma BodyRead(body: Body, rest: seq<u8>)
    requires BodyFits(body) && !body.Lost?
    ensures FromBuffer(BodyBytes(body) + rest) == Ok(Read(BodyValue(body), |BodyBytes(body)|))
  {
    hide FromBuffer, Write, ItemBytes, NestedHead;
    match body
    case Scalar(v) =>
      assert v.(varType := v.varType % TYPE_COUNT) == v;
      RoundTrip(v, rest);
    case Nested(kind, form, items) => NestedRead(kind, form, ItemBytes(items), rest);
  }

  lemma NestedRead(kind: Kind, form: nat, payload: seq<u8>, rest: seq<u8>)
    requires form < 3 && |payload| < Range(Width(form))
    ensures var head := NestedHead(kind, form, |payload|);
            FromBuffer(head + payload + rest) == Ok(Read(Variant(TypeOf(kind), payload), |head| + |payload|))
  {
    hide FromBuffer, Announces, Le, Range;
    FieldAnnounces(TypeOf(kind), form, Width(form), |payload|);
    Remainder(|payload|, Range(Width(form)));
    AnnouncedRead(NestedHead(kind, form, |payload|), TypeOf(kind), payload, rest);
  }

  // ----- how long the bytes can be

  /** What ReadEntry has read: a key of its own size, then a value. */
  lemma EntryParts(kind: Kind, data: seq<u8>)
    requires ReadEntry(kind, data).Ok?
    ensures var r := ReadEntry(kind, data).value;
            var k := |WriteKey(r.value.key)|;
            && k < r.size <= |data| && ReadKey(kind, data) == Ok(Read(r.value.key, k))
            && FromBuffer(data[k..]) == Ok(Read(r.value.value, r.size - k)) && |r.value.value.data| < r.size - k
  {
    hide FromBuffer;
  }

  /** The entries that were read, one by one. */
  lemma EntriesParts(kind: Kind, data: seq<u8>, key: Key, t: Tree, f: Forest)
    requires Entries(kind, data) == Ok(Cons(key, t, f))
    ensures ReadEntry(kind, data).Ok?
    ensures var r := ReadEntry(kind, data).value;
            r.value.key == key && Unpack(r.value.value) == Ok(t) && Entries(kind, data[r.size..]) == Ok(f)
  {
    hide ReadEntry, Unpack;
  }

  lemma UnpackLeaf(v: Variant, value: Variant)
    requires Unpack(v) == Ok(Leaf(value))
    ensures v == value
  {
    hide Entries;
  }

  lemma UnpackNested(v: Variant, kind: Kind, f: Forest)
    requires Unpack(v) == Ok(Node(kind, f))
    ensures v.varType == TypeOf(kind) && Entries(kind, v.data) == Ok(f)
  {
    hide Entries;
  }

  /** However the same entries are written, the bytes here are at most five times as long. */
  lemma {:induction false} Longest(kind: Kind, items: Items, data: seq<u8>)
    requires ItemsFit(kind, items) && Entries(kind, data) == Ok(Meant(items))
    ensures |ItemBytes(items)| <= 5 * |data|
    decreases items
  {
    hide Entries, Unpack, ReadEntry, WriteKey, Write, NestedHead, Fits, KeyFits, FromBuffer, ReadKey;
    match items
    case End =>
    case Item(key, body, rest) =>
      EntriesParts(kind, data, key, MeantBody(body), Meant(rest));
      EntryParts(kind, data);
      var r := ReadEntry(kind, data).value;
      Longest(kind, rest, data[r.size..]);
      LongestBody(body, r.value.value);
  }

  lemma {:induction false} LongestBody(body: Body, v: Variant)
    requires BodyFits(body) && Unpack(v) == Ok(MeantBody(body))
    ensures |BodyBytes(body)| <= 5 + 5 * |v.data| && (!body.Lost? ==> |BodyValue(body).data| <= 5 * |v.data|)
    ensures v.varType == if body.Scalar? then body.value.varType else TypeOf(body.kind)
    ensures body.Scalar? ==> v == body.value
    decreases body
  {
    hide Entries, Unpack, ItemBytes, Write, NestedHead, Fits;
    match body
    case Scalar(value) =>
      UnpackLeaf(v, value);
      BodyParts(body);
    case Nested(kind, _, items) =>
      UnpackNested(v, kind, Meant(items));
      Longest(kind, items, v.data);
      BodyParts(body);
    case Lost(kind, meant) => UnpackNested(v, kind, meant);
  }

  // ----- a header found in a length field

  lemma {:induction false} FieldFrom(s: seq<u8>, k: nat)
    requires k <= |s|
    ensures FromLe(s) >= FromLe(s[k..]) && (k > 0 ==> FromLe(s) >= 256 * FromLe(s[k..]))
  {
    if k > 0 {
      FieldFrom(s[1..], k - 1);
      assert s[1..][k - 1..] == s[k..];
    }
  }

  lemma {:induction false} FieldTo(s: seq<u8>, k: nat)
    requires k <= |s|
    ensures FromLe(s) >= FromLe(s[..k])
  {
    if k > 0 {
      FieldTo(s[1..], k - 1);
      assert s[..k][1..] == s[1..][..k - 1];
    }
  }

  /**
   * When the bytes of a length field are taken for a header, that header announces far less than the field does:
   * but for one byte of payload where the field stands for the number of the type.
   */
  lemma HeaderInField(field: seq<u8>, at: nat, size: nat, buffer: seq<u8>, n: nat)
    requires at + 1 + size <= |field| && 1 + size <= |buffer| && buffer[..1 + size] == field[at..at + 1 + size]
    requires ReadSize(buffer, buffer[0]) == Ok(Read(n, size)) && buffer[0] % TYPE_COUNT != VAR_EMPTY
    requires FromLe(field) <= 5 * n
    ensures n == 1 && FromLe(field) == buffer[0] % TYPE_COUNT
  {
    hide FromLe, ReadSize;
    var q, tail := buffer[0] as nat, field[at..];
    assert tail[0] == field[at] == buffer[..1 + size][0] == q;
    assert tail[..1 + size] == field[at..at + 1 + size];
    FieldFrom(field, at);
    FieldFirst(tail);
    SizeForms(buffer, n, size);
    if q / LEN_FIELD % 2 == 1 {
      FieldInField(tail, size, buffer, n);
      assert false;
    } else if at == 0 {
      assert tail == field;
      SmallByte(q, FromLe(tail[1..]), n);
    }
  }

  lemma SmallByte(q: nat, more: nat, n: nat)
    requires q + 256 * more <= 5 * n && 1 <= n <= 8 && (q < 64 ==> n == 1 && q < 32)
    ensures n == 1 && q + 256 * more == q == q % TYPE_COUNT
  {
  }

  /** A length field that is part of a length field stands for less than a 256th of it. */
  lemma FieldInField(tail: seq<u8>, size: nat, buffer: seq<u8>, n: nat)
    requires 1 + size <= |tail| && 1 + size <= |buffer| && buffer[..1 + size] == tail[..1 + size] && n == FromLe(buffer[1..1 + size])
    ensures FromLe(tail) >= tail[0] as nat + 256 * n
  {
    hide FromLe;
    assert buffer[1..1 + size] == buffer[..1 + size][1..] == tail[..1 + size][1..] == tail[1..][..size];
    FieldTo(tail[1..], size);
    FieldFirst(tail);
  }

  lemma FieldFirst(s: seq<u8>)
    requires s != []
    ensures FromLe(s) == s[0] as nat + 256 * FromLe(s[1..])
  {
  }

  /** The two kinds of header. */
  lemma SizeForms(buffer: seq<u8>, n: nat, size: nat)
    requires 1 + size <= |buffer| && ReadSize(buffer, buffer[0]) == Ok(Read(n, size)) && buffer[0] % TYPE_COUNT != VAR_EMPTY
    ensures buffer[0] / LEN_FIELD % 2 == 1 ==> n == FromLe(buffer[1..1 + size])
    ensures buffer[0] / LEN_FIELD % 2 == 0 ==> size == 0 && 1 <= n <= 8 && (buffer[0] < 64 ==> n == 1 && buffer[0] < 32)
    ensures buffer[0] >= 1
  {
  }

  // ----- the same entries are not found further back

  /** A container of one byte is a list with the empty value in it. */
  lemma OneByte(kind: Kind, items: Items, data: seq<u8>)
    requires ItemsFit(kind, items) && |data| == 1 && Entries(kind, data) == Ok(Meant(items))
    ensures |ItemBytes(items)| != TypeOf(kind)
  {
    hide Write, FromBuffer;
    var r := ReadEntry(kind, data).value;
    EntryParts(kind, data);
    assert kind == List && r.value.key == NoKey && r.size == 1 && r.value.value.data == [];
    assert data[1..] == [] && items.Item? && items.rest == End;
    EmptyValue(data, r.value.value);
    assert items.body == Scalar(Variant(VAR_EMPTY, []));
    assert |Write(Variant(VAR_EMPTY, []))| == 1 by { WriteEmpty(); }
  }

  lemma WriteEmpty()
    ensures Write(Variant(VAR_EMPTY, [])) == [VAR_EMPTY]
  {
  }

  lemma EmptyValue(data: seq<u8>, v: Variant)
    requires |data| == 1 && FromBuffer(data[0..]) == Ok(Read(v, 1))
    ensures v == Variant(VAR_EMPTY, [])
  {
    assert data[0..] == data;
  }

  /**
   * What was meant is not read from any stretch that starts behind the first byte of the container. For it to end
   * inside as well, some value would have to be found at a later place and to end no later than the one that is
   * there, and its header would have to be made of that one's length field.
   */
  lemma {:induction false} Behind(kind: Kind, items: Items, from: nat, to: nat)
    requires ItemsFit(kind, items) && 0 < from <= to <= |ItemBytes(items)|
    ensures Entries(kind, ItemBytes(items)[from..to]) != Ok(Meant(items))
    decreases items
  {
    hide Entries, Unpack, ReadEntry, WriteKey, KeyFits, BodyBytes, BodyFits;
    match items
    case End =>
    case Item(key, body, rest) =>
      var s := ItemBytes(items);
      var data := s[from..to];
      if Entries(kind, data) == Ok(Meant(items)) {
        EntriesParts(kind, data, key, MeantBody(body), Meant(rest));
        EntryParts(kind, data);
        var size, here := ReadEntry(kind, data).value.size, WriteKey(key) + BodyBytes(body);
        if from + size > |here| {
          assert data[size..] == ItemBytes(rest)[from + size - |here|..to - |here|];
          Behind(kind, rest, from + size - |here|, to - |here|);
        } else {
          EntryExtends(kind, data, []);
          assert data[..size] == here[from..from + size];
          Crossing(kind, key, body, from, size);
        }
      }
  }

  /** One entry is not found again inside its own bytes. */
  lemma {:induction false} Crossing(kind: Kind, key: Key, body: Body, from: nat, size: nat)
    requires BodyFits(body) && 0 < from && from + size <= |WriteKey(key) + BodyBytes(body)|
    requires var data := (WriteKey(key) + BodyBytes(body))[from..from + size];
             ReadEntry(kind, data).Ok? && ReadEntry(kind, data).value.size == size && ReadEntry(kind, data).value.value.key == key
    ensures var data := (WriteKey(key) + BodyBytes(body))[from..from + size];
            Unpack(ReadEntry(kind, data).value.value.value) != Ok(MeantBody(body))
    decreases body, 2
  {
    hide Entries, Unpack, ReadEntry, WriteKey, KeyFits, BodyBytes, BodyFits, FromBuffer, ReadKey;
    var data := (WriteKey(key) + BodyBytes(body))[from..from + size];
    EntryParts(kind, data);
    var k := |WriteKey(key)|;
    assert data[k..] == BodyBytes(body)[from..from + size - k];
    BodyNotInside(body, from, size - k, ReadEntry(kind, data).value.value.value);
  }

  lemma {:induction false} BodyNotInside(body: Body, from: nat, size: nat, v: Variant)
    requires BodyFits(body) && 0 < from && from + size <= |BodyBytes(body)|
    requires FromBuffer(BodyBytes(body)[from..from + size]) == Ok(Read(v, size))
    ensures Unpack(v) != Ok(MeantBody(body))
    decreases body, 1
  {
    hide Entries, Unpack, BodyBytes, FromBuffer, ReadSize, BodyHead, BodyValue, MeantBody, Fits, BodyFits;
    if Unpack(v) == Ok(MeantBody(body)) {
      LostBytes(body);
      BodyParts(body);
      var data, head := BodyBytes(body)[from..from + size], BodyHead(body);
      var field := ValueParts(data, v);
      if from + 1 + field > |head| {
        PartOfPayload(head, BodyValue(body).data, from, size, 1 + field);
        PayloadNotInside(body, from + 1 + field - |head|, v);
      } else {
        PartOfHead(head, BodyValue(body).data, from, size, 1 + field);
        HeadNotInside(body, from, field, data, v);
      }
    }
  }

  /** A payload behind the first byte of the payload is another one. */
  lemma {:induction false} PayloadNotInside(body: Body, from: nat, v: Variant)
    requires BodyFits(body) && !body.Lost? && 0 < from && from + |v.data| <= |BodyValue(body).data|
    requires v.data == BodyValue(body).data[from..from + |v.data|]
    ensures Unpack(v) != Ok(MeantBody(body))
    decreases body, 0
  {
    hide Entries, Unpack, ItemBytes, Fits;
    if Unpack(v) == Ok(MeantBody(body)) {
      match body
      case Scalar(value) => UnpackLeaf(v, value);
      case Nested(kind, _, items) =>
        UnpackNested(v, kind, Meant(items));
        Behind(kind, items, from, from + |v.data|);
    }
  }

  /** A header in the length field announces too little. */
  lemma HeadNotInside(body: Body, from: nat, size: nat, data: seq<u8>, v: Variant)
    requires BodyFits(body) && !body.Lost? && 0 < from && from + 1 + size <= |BodyHead(body)| && 1 + size <= |data|
    requires data[..1 + size] == BodyHead(body)[1..][from - 1..from + size] && data[0] % TYPE_COUNT == v.varType
    requires var n: nat := |v.data|; ReadSize(data, data[0]) == Ok(Read(n, size))
    ensures Unpack(v) != Ok(MeantBody(body))
  {
    hide Entries, Unpack, ItemBytes, Fits, BodyBytes, BodyHead, ReadSize, FromLe;
    if Unpack(v) == Ok(MeantBody(body)) {
      BodyParts(body);
      LongestBody(body, v);
      HeaderInField(BodyHead(body)[1..], from - 1, size, data, |v.data|);
      match body
      case Scalar(_) =>
      case Nested(kind, _, items) =>
        UnpackNested(v, kind, Meant(items));
        OneByte(kind, items, v.data);
    }
  }

  lemma PartOfHead(head: seq<u8>, payload: seq<u8>, from: nat, size: nat, h: nat)
    requires 0 < from && h <= size && from + h <= |head| && from + size <= |head + payload|
    ensures (head + payload)[from..from + size][..h] == head[1..][from - 1..from - 1 + h]
  {
    var x, y := (head + payload)[from..from + size][..h], head[1..][from - 1..from - 1 + h];
    forall i | 0 <= i < h
      ensures x[i] == y[i]
    {
      assert x[i] == (head + payload)[from + i] == head[from + i];
    }
  }

  lemma PartOfPayload(head: seq<u8>, payload: seq<u8>, from: nat, size: nat, h: nat)
    requires h <= size && from + h > |head| && from + size <= |head + payload|
    ensures (head + payload)[from..from + size][h..] == payload[from + h - |head|..from + size - |head|]
  {
    var x, y := (head + payload)[from..from + size][h..], payload[from + h - |head|..from + size - |head|];
    forall i | 0 <= i < size - h
      ensures x[i] == y[i]
    {
      assert x[i] == (head + payload)[from + h + i] == payload[from + h + i - |head|];
    }
  }

  lemma LostBytes(body: Body)
    ensures body.Lost? ==> BodyBytes(body) == []
  {
  }

  /** The header of a value that takes the whole of its bytes, and its type. */
  lemma ValueParts(data: seq<u8>, v: Variant) returns (size: nat)
    requires FromBuffer(data) == Ok(Read(v, |data|))
    ensures 1 + size <= |data| && data[1 + size..] == v.data && data[0] % TYPE_COUNT == v.varType
    ensures var n: nat := |v.data|; ReadSize(data, data[0]) == Ok(Read(n, size))
  {
    size := ReadSize(data, data[0]).value.size;
  }

  // ----- exactly when nothing was lost

  /** The first of the items and the rest of them, as far as reading goes. */
  lemma FirstItem(kind: Kind, key: Key, body: Body, rest: seq<u8>, f: Forest)
    requires KeyFits(kind, key) && BodyFits(body) && !body.Lost?
    ensures var data := WriteKey(key) + BodyBytes(body) + rest;
            Entries(kind, data) == Ok(Cons(key, MeantBody(body), f)) <==>
              Unpack(BodyValue(body)) == Ok(MeantBody(body)) && Entries(kind, rest) == Ok(f)
  {
    hide Unpack, WriteKey, BodyBytes, FromBuffer, ReadKey, KeyFits, BodyFits;
    var data := WriteKey(key) + BodyBytes(body) + rest;
    assert data == WriteKey(key) + (BodyBytes(body) + rest);
    KeyRoundTrip(kind, key, BodyBytes(body) + rest);
    BodyRead(body, rest);
    assert data[|WriteKey(key)| + |BodyBytes(body)|..] == rest;
    assert ReadEntry(kind, data) == Ok(Read(Entry(key, BodyValue(body)), |WriteKey(key)| + |BodyBytes(body)|));
    hide ReadEntry;
    if Entries(kind, data) == Ok(Cons(key, MeantBody(body), f)) {
      EntriesParts(kind, data, key, MeantBody(body), f);
    }
  }

  /** After a lost entry its key is read with the bytes that follow, and then the rest is not found. */
  lemma LostItem(kind: Kind, key: Key, body: Body, rest: Items)
    requires KeyFits(kind, key) && body.Lost? && ItemsFit(kind, rest)
    ensures Entries(kind, WriteKey(key) + BodyBytes(body) + ItemBytes(rest)) != Ok(Cons(key, MeantBody(body), Meant(rest)))
  {
    hide Unpack, WriteKey, FromBuffer, ReadKey, KeyFits, ItemsFit, Entries, ReadEntry, ItemBytes;
    var more := ItemBytes(rest);
    var data := WriteKey(key) + BodyBytes(body) + more;
    assert data == WriteKey(key) + more;
    KeyRoundTrip(kind, key, more);
    if Entries(kind, data) == Ok(Cons(key, MeantBody(body), Meant(rest))) {
      EntriesParts(kind, data, key, MeantBody(body), Meant(rest));
      EntryParts(kind, data);
      var k, size := |WriteKey(key)|, ReadEntry(kind, data).value.size;
      assert data[size..] == more[size - k..|more|];
      Behind(kind, rest, size - k, |more|);
    }
  }

  /** A container reads to exactly what was meant if and only if no entry was lost, at any depth. */
  lemma {:induction false} ReadsExactly(kind: Kind, items: Items)
    requires ItemsFit(kind, items)
    ensures Entries(kind, ItemBytes(items)) == Ok(Meant(items)) <==> NoneLost(items)
    decreases items
  {
    hide Entries, Unpack, WriteKey, BodyBytes, KeyFits;
    match items
    case End => EntriesOfEnd(kind);
    case Item(key, body, rest) =>
      ReadsExactly(kind, rest);
      match body
      case Scalar(v) =>
        FirstItem(kind, key, body, ItemBytes(rest), Meant(rest));
        LeafUnpacks(v);
      case Nested(inner, _, nested) =>
        FirstItem(kind, key, body, ItemBytes(rest), Meant(rest));
        ReadsExactly(inner, nested);
        NodeUnpacks(inner, ItemBytes(nested), Meant(nested));
      case Lost(_, _) => LostItem(kind, key, body, rest);
  }

  lemma EntriesOfEnd(kind: Kind)
    ensures Entries(kind, []) == Ok(Nil)
  {
  }

  lemma LeafUnpacks(v: Variant)
    requires KindOf(v.varType).None?
    ensures Unpack(v) == Ok(Leaf(v))
  {
  }

  lemma NodeUnpacks(kind: Kind, data: seq<u8>, f: Forest)
    ensures Unpack(Variant(TypeOf(kind), data)) == Ok(Node(kind, f)) <==> Entries(kind, data) == Ok(f)
  {
    hide Entries;
  }
}
