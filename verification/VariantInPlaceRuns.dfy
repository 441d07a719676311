/** Well-nested runs of the in-place builder: what they write reads back to the entries inserted exactly when no call was wrong. */
module VariantInPlaceRuns {
  import opened Results
  import opened VariantCodec
  import opened VariantTree
  import opened VariantItems
  import opened VariantInPlace

  /**
   * The calls made on one container, each for some kind of container: a value inserted, or an entry prepared, filled
   * by calls of its own and finished. An entry or container without a type gets it from the first call on it.
   */
  datatype Script =
    | Done
    | Value(call: Kind, key: Key, value: Variant, rest: Script)
    | Nest(call: Kind, key: Key, entry: Option<Kind>, inner: Script, rest: Script)

  /** The type of a container after the calls. */
  function TypeAfter(t: Option<Kind>, s: Script): Option<Kind> {
    if t.Some? then t
    else
      match s
      case Done => None
      case Value(call, _, _, _) => Some(call)
      case Nest(call, _, _, _, _) => Some(call)
  }

  predicate AllFor(kind: Kind, s: Script) {
    match s
    case Done => true
    case Value(call, _, _, rest) => call == kind && AllFor(kind, rest)
    case Nest(call, _, _, _, rest) => call == kind && AllFor(kind, rest)
  }

  /** No call is for another kind of container than this one is. */
  predicate RightTyped(t: Option<Kind>, s: Script) {
    match TypeAfter(t, s)
    case None => true
    case Some(kind) => AllFor(kind, s)
  }

  /** Variant_Finish writes a header. */
  predicate Finishes(t: Option<Kind>, s: Script) {
    TypeAfter(t, s).Some? && RightTyped(t, s)
  }

  /** No call here or on a nested entry has the wrong type, and nothing is finished without a type. */
  predicate Good(t: Option<Kind>, s: Script)
    decreases s, 1
  {
    Finishes(t, s) && EntriesGood(s)
  }

  predicate EntriesGood(s: Script)
    decreases s, 0
  {
    match s
    case Done => true
    case Value(_, _, _, rest) => EntriesGood(rest)
    case Nest(_, _, entry, inner, rest) => Good(entry, inner) && EntriesGood(rest)
  }

  /** What was to be inserted. An entry that never gets a type stands for an empty map. */
  function ForestOf(s: Script): Forest {
    match s
    case Done => Nil
    case Value(_, key, value, rest) => Cons(key, Leaf(value), ForestOf(rest))
    case Nest(_, key, entry, inner, rest) => Cons(key, Node(KindMeant(entry, inner), ForestOf(inner)), ForestOf(rest))
  }

  function KindMeant(t: Option<Kind>, s: Script): Kind {
    match TypeAfter(t, s)
    case None => Map
    case Some(kind) => kind
  }

  /** Room for a full header at every insertion. */
  function Room(s: Script): nat {
    match s
    case Done => 0
    case Value(_, key, value, rest) => |WriteKey(key)| + 5 + |value.data| + Room(rest)
    case Nest(_, key, _, inner, rest) => |WriteKey(key)| + 5 + Room(inner) + Room(rest)
  }

  /** Keys fit the call they are for, and values are scalars that fit. */
  predicate ScriptFits(s: Script)
    decreases s
  {
    match s
    case Done => true
    case Value(call, key, value, rest) => KeyFits(call, key) && Fits(value) && KindOf(value.varType).None? && ScriptFits(rest)
    case Nest(call, key, _, inner, rest) => KeyFits(call, key) && ScriptFits(inner) && ScriptFits(rest)
  }

  function TypeByte(t: Option<Kind>): (r: u8)
    ensures r < TYPE_COUNT
  {
    match t
    case None => VAR_EMPTY
    case Some(kind) => TypeOf(kind)
  }

  lemma Wider(b: seq<u8>, b': seq<u8>, lo: nat, hi: nat, lo': nat, hi': nat)
    requires SameOutside(b, b', lo, hi) && lo' <= lo && hi <= hi' <= |b|
    ensures SameOutside(b, b', lo', hi')
  {
    assert b'[..lo'] == b'[..lo][..lo'] == b[..lo][..lo'] == b[..lo'];
    assert b'[hi'..] == b'[hi..][hi' - hi..] == b[hi..][hi' - hi..] == b[hi'..];
  }

  // ----- one call

  /** A call for some kind of container: nothing but an error is left of one of the wrong kind. */
  method Enter(v: CVariant, ghost t: Option<Kind>, call: Kind, key: Key, varType: u8, data: Option<seq<u8>>) returns (right: bool)
    requires v.Valid() && !v.badSize && v.varType == TypeByte(t) && KeyFits(call, key) && varType < TYPE_COUNT
    requires v.maxSize - v.size >= |WriteKey(key)| + 5 + v.Length(data)
    modifies v, v.buffer
    ensures v.Valid() && !v.badSize && right == (t.None? || t == Some(call))
    ensures v.varType == (if t.Some? then TypeByte(t) else TypeOf(call)) && v.badType == (old(v.badType) || !right)
    ensures SameOutside(old(v.buffer[..]), v.buffer[..], v.start + old(v.size), v.start + v.maxSize)
    ensures v.Contents() == old(v.Contents()) + (if right then WriteKey(key) + v.Following(varType, data) else [])
  {
    hide WriteKey, Write, CVariant.Contents, CVariant.Following, SameOutside;
    right := v.varType == VAR_EMPTY || v.varType == TypeOf(call);
    FollowingSize(v, varType, data);
    KeySize(call, key);
    var inRoom;
    match call {
      case Map => inRoom := v.InsertRaw(key.name, varType, data);
      case List => inRoom := v.AppendRaw(varType, data);
      case Index => inRoom := v.AddRaw(key.number, varType, data);
    }
  }

  lemma KeySize(kind: Kind, key: Key)
    requires KeyFits(kind, key)
    ensures |WriteKey(key)| == match kind { case Map => 1 + |key.name| case List => 0 case Index => 4 }
  {
  }

  lemma FollowingSize(v: CVariant, varType: u8, data: Option<seq<u8>>)
    requires varType < TYPE_COUNT
    ensures |v.Following(varType, data)| <= 5 + v.Length(data)
  {
  }

  lemma FitsType(v: Variant)
    requires Fits(v)
    ensures v.varType % TYPE_COUNT == v.varType < TYPE_COUNT
  {
  }

  lemma Joined(a: seq<u8>, b: seq<u8>, c: seq<u8>)
    ensures a + b + c == a + (b + c)
  {
  }

  lemma KeyAlone(v: CVariant, key: Key)
    ensures WriteKey(key) + v.Following(0, None) == WriteKey(key)
  {
  }

  // ----- runs

  /** The widest header Prepare can choose holds every payload that fits the room. */
  lemma FinalIsNested(kind: Kind, maxSize: nat, payload: nat)
    requires payload <= maxSize < U32_COUNT
    ensures exists form :: form < 3 && FinalHead(TypeOf(kind), maxSize, payload) == NestedHead(kind, form, payload) && payload < Range(Width(form))
  {
    Ranges();
    var form := if maxSize >= 65535 then 2 else if maxSize >= 255 then 1 else 0;
    assert FinalHead(TypeOf(kind), maxSize, payload) == NestedHead(kind, form, payload);
  }

  /** The items that the accepted calls of a script left behind the payload. */
  ghost predicate Ran(t: Option<Kind>, s: Script, items: Items) {
    && |ItemBytes(items)| <= Room(s)
    && (match TypeAfter(t, s) case None => items == End case Some(kind) => ItemsFit(kind, items))
    && (RightTyped(t, s) ==> Meant(items) == ForestOf(s) && (NoneLost(items) <==> EntriesGood(s)))
  }

  /** The body that an entry left behind its key. */
  ghost predicate Filled(entry: Option<Kind>, inner: Script, body: Body) {
    && BodyFits(body) && !body.Scalar? && |BodyBytes(body)| <= 5 + Room(inner)
    && MeantBody(body) == Node(KindMeant(entry, inner), ForestOf(inner))
    && (body.Nested? <==> Finishes(entry, inner)) && (body.Nested? ==> (NoneLost(body.items) <==> EntriesGood(inner)))
  }

  /** A call of the wrong kind adds nothing. */
  lemma RanWrong(t: Option<Kind>, s: Script, rest: Script, items: Items)
    requires s.Value? || s.Nest?
    requires rest == s.rest && t.Some? && t != Some(s.call) && Ran(t, rest, items)
    ensures Ran(t, s, items)
  {
  }

  /** What a script with an accepted call in front asks of the rest. */
  lemma RightStep(t: Option<Kind>, s: Script)
    requires s.Value? || s.Nest?
    requires t.None? || t == Some(s.call)
    ensures TypeAfter(t, s) == TypeAfter(Some(s.call), s.rest) == Some(s.call) && RightTyped(t, s) == RightTyped(Some(s.call), s.rest)
  {
  }

  lemma ItemBytesStep(key: Key, body: Body, rest: Items)
    ensures ItemBytes(Item(key, body, rest)) == WriteKey(key) + BodyBytes(body) + ItemBytes(rest)
  {
  }

  lemma ScalarBytes(v: Variant)
    requires Fits(v)
    ensures v.varType < TYPE_COUNT && BodyBytes(Scalar(v)) == Write(v) && |Write(v)| <= 5 + |v.data|
  {
    assert v.(varType := v.varType % TYPE_COUNT) == v;
  }

  lemma RanIs(t: Option<Kind>, s: Script, items: Items)
    requires TypeAfter(t, s).Some? && |ItemBytes(items)| <= Room(s) && ItemsFit(TypeAfter(t, s).value, items)
    requires RightTyped(t, s) ==> Meant(items) == ForestOf(s) && (NoneLost(items) <==> EntriesGood(s))
    ensures Ran(t, s, items)
  {
  }

  /** An accepted value in front of the rest. */
  lemma RanValue(t: Option<Kind>, s: Script, items: Items)
    requires s.Value? && (t.None? || t == Some(s.call)) && ScriptFits(s) && Ran(Some(s.call), s.rest, items)
    ensures s.value.varType < TYPE_COUNT && Ran(t, s, Item(s.key, Scalar(s.value), items))
    ensures ItemBytes(Item(s.key, Scalar(s.value), items)) == WriteKey(s.key) + Write(s.value) + ItemBytes(items)
  {
    hide ItemBytes, BodyBytes, Write, WriteKey, TypeAfter, RightTyped, Fits, KeyFits;
    RightStep(t, s);
    ScalarBytes(s.value);
    ItemBytesStep(s.key, Scalar(s.value), items);
    RanIs(t, s, Item(s.key, Scalar(s.value), items));
  }

  /** An accepted entry in front of the rest. */
  lemma RanNest(t: Option<Kind>, s: Script, body: Body, items: Items)
    requires s.Nest? && (t.None? || t == Some(s.call)) && ScriptFits(s) && Filled(s.entry, s.inner, body) && Ran(Some(s.call), s.rest, items)
    ensures Ran(t, s, Item(s.key, body, items))
    ensures ItemBytes(Item(s.key, body, items)) == WriteKey(s.key) + BodyBytes(body) + ItemBytes(items)
  {
    hide ItemBytes, BodyBytes, WriteKey, BodyFits, TypeAfter, RightTyped, KeyFits, Finishes;
    RightStep(t, s);
    ItemBytesStep(s.key, body, items);
    RanIs(t, s, Item(s.key, body, items));
  }

  /** A value that was accepted or refused, and the rest. */
  lemma AfterValue(t: Option<Kind>, s: Script, right: bool, more: Items) returns (items: Items)
    requires s.Value? && right == (t.None? || t == Some(s.call)) && ScriptFits(s) && Ran(if t.Some? then t else Some(s.call), s.rest, more)
    ensures s.value.varType < TYPE_COUNT && Ran(t, s, items)
    ensures ItemBytes(items) == (if right then WriteKey(s.key) + Write(s.value) else []) + ItemBytes(more)
  {
    hide Ran, ItemBytes, WriteKey, Write, KeyFits;
    items := if right then Item(s.key, Scalar(s.value), more) else more;
    if right { RanValue(t, s, more); } else { RanWrong(t, s, s.rest, more); }
  }

  /** An entry that was accepted or refused, and the rest. */
  lemma AfterNest(t: Option<Kind>, s: Script, right: bool, body: Body, more: Items) returns (items: Items)
    requires s.Nest? && right == (t.None? || t == Some(s.call)) && ScriptFits(s) && Ran(if t.Some? then t else Some(s.call), s.rest, more)
    requires right ==> Filled(s.entry, s.inner, body)
    ensures Ran(t, s, items) && ItemBytes(items) == (if right then WriteKey(s.key) + BodyBytes(body) else []) + ItemBytes(more)
  {
    hide Ran, ItemBytes, WriteKey, BodyBytes, KeyFits, Filled;
    items := if right then Item(s.key, body, more) else more;
    if right { RanNest(t, s, body, more); } else { RanWrong(t, s, s.rest, more); }
  }

  /** Runs the calls of a script. */
  method Run(v: CVariant, t: Option<Kind>, s: Script) returns (ghost items: Items)
    requires v.Valid() && !v.badSize && v.varType == TypeByte(t) && ScriptFits(s) && Room(s) <= v.maxSize - v.size
    modifies v, v.buffer
    ensures v.Valid() && !v.badSize && v.varType == TypeByte(TypeAfter(t, s)) && v.badType == (old(v.badType) || !RightTyped(t, s))
    ensures v.Contents() == old(v.Contents()) + ItemBytes(items) && Ran(t, s, items)
    ensures SameOutside(old(v.buffer[..]), v.buffer[..], v.start + old(v.size), v.start + v.maxSize)
    decreases s, 0
  {
    hide WriteKey, Write, Fits, KeyFits, SameOutside, FinalHead, CVariant.Contents, Ran, Filled, ItemBytes, BodyBytes;
    ghost var b0, s0, c0 := v.buffer[..], v.size, v.Contents();
    match s {
      case Done =>
        items := End;
        RanNothing(t);
        Unchanged(b0, v.start + s0, v.start + v.maxSize);
      case Value(call, key, value, rest) =>
        var right := EnterValue(v, t, call, key, value);
        ghost var b1, s1 := v.buffer[..], v.size;
        ghost var more := Run(v, if t.Some? then t else Some(call), rest);
        OutsideTwice(b0, b1, v.buffer[..], v.start + s0, v.start + s1, v.start + v.maxSize);
        items := AfterValue(t, s, right, more);
        Joined(c0, if right then WriteKey(key) + Write(value) else [], ItemBytes(more));
      case Nest(call, key, entry, inner, rest) =>
        var right; ghost var body;
        right, body := EnterNested(v, t, call, key, entry, inner);
        ghost var b1, s1 := v.buffer[..], v.size;
        ghost var more := Run(v, if t.Some? then t else Some(call), rest);
        OutsideTwice(b0, b1, v.buffer[..], v.start + s0, v.start + s1, v.start + v.maxSize);
        items := AfterNest(t, s, right, body, more);
        Joined(c0, if right then WriteKey(key) + BodyBytes(body) else [], ItemBytes(more));
    }
  }

  lemma RanNothing(t: Option<Kind>)
    ensures Ran(t, Done, End) && ItemBytes(End) == []
  {
  }

  /** A key and its value. */
  method EnterValue(v: CVariant, ghost t: Option<Kind>, call: Kind, key: Key, value: Variant) returns (right: bool)
    requires v.Valid() && !v.badSize && v.varType == TypeByte(t) && KeyFits(call, key) && Fits(value)
    requires |WriteKey(key)| + 5 + |value.data| <= v.maxSize - v.size
    modifies v, v.buffer
    ensures v.Valid() && !v.badSize && right == (t.None? || t == Some(call))
    ensures v.varType == (if t.Some? then TypeByte(t) else TypeOf(call)) && v.badType == (old(v.badType) || !right)
    ensures SameOutside(old(v.buffer[..]), v.buffer[..], v.start + old(v.size), v.start + v.maxSize)
    ensures value.varType < TYPE_COUNT && v.Contents() == old(v.Contents()) + (if right then WriteKey(key) + Write(value) else [])
  {
    hide WriteKey, Write, Fits, KeyFits, SameOutside, CVariant.Contents;
    FitsType(value);
    right := Enter(v, t, call, key, value.varType, Some(value.data));
  }

  /** A key, an entry prepared behind it, its calls, and the entry finished; none of it when the key is refused. */
  method EnterNested(v: CVariant, ghost t: Option<Kind>, call: Kind, key: Key, entry: Option<Kind>, inner: Script) returns (right: bool, ghost body: Body)
    requires v.Valid() && !v.badSize && v.varType == TypeByte(t) && KeyFits(call, key) && ScriptFits(inner)
    requires |WriteKey(key)| + 5 + Room(inner) <= v.maxSize - v.size
    modifies v, v.buffer
    ensures v.Valid() && !v.badSize && right == (t.None? || t == Some(call))
    ensures v.varType == (if t.Some? then TypeByte(t) else TypeOf(call)) && v.badType == (old(v.badType) || !right)
    ensures SameOutside(old(v.buffer[..]), v.buffer[..], v.start + old(v.size), v.start + v.maxSize)
    ensures right ==> Filled(entry, inner, body) && |BodyBytes(body)| <= 5 + Room(inner)
    ensures v.Contents() == old(v.Contents()) + (if right then WriteKey(key) + BodyBytes(body) else [])
    decreases inner, 2
  {
    hide WriteKey, KeyFits, SameOutside, CVariant.Contents, Filled, BodyBytes;
    ghost var b0, s0 := v.buffer[..], v.size;
    right := Enter(v, t, call, key, 0, None);
    body := Lost(Map, Nil);
    if right {
      ghost var b1, s1 := v.buffer[..], v.size;
      KeyAlone(v, key);
      ghost var c0, c1 := old(v.Contents()), v.Contents();
      body := FillEntry(v, entry, inner);
      Joined(c0, WriteKey(key), BodyBytes(body));
      OutsideTwice(b0, b1, v.buffer[..], v.start + s0, v.start + s1, v.start + v.maxSize);
    }
  }

  /** An entry prepared behind the payload, its calls, and the entry finished: an error in it is not passed on. */
  method FillEntry(v: CVariant, entry: Option<Kind>, inner: Script) returns (ghost body: Body)
    requires v.Valid() && ScriptFits(inner) && 5 + Room(inner) <= v.maxSize - v.size
    modifies v`size, v.buffer
    ensures v.Valid() && Filled(entry, inner, body) && |BodyBytes(body)| <= 5 + Room(inner) && v.Contents() == old(v.Contents()) + BodyBytes(body)
    ensures SameOutside(old(v.buffer[..]), v.buffer[..], v.start + old(v.size), v.start + v.maxSize)
    decreases inner, 1
  {
    hide SameOutside, FinalHead, CVariant.Contents, ScriptFits, Room, Ran, Filled, BodyBytes, RightTyped;
    ghost var b1, lo, hi := v.buffer[..], v.start + v.size, v.start + v.maxSize;
    ContentsAre(v);
    var e := v.PrepareEntry(TypeByte(entry));
    ContentsAre(e);
    assert e.Contents() == [];
    ghost var items := Run(e, entry, inner);
    assert e.Contents() == ItemBytes(items);
    ghost var b2 := v.buffer[..];
    Wider(b1, b2, e.start, e.start + e.maxSize, lo, hi);
    PrefixKept(b1, b2, v.start, lo, hi);
    ContentsAre(v);
    body := BodyOf(entry, inner, items, e.maxSize);
    v.FinishEntry(e);
    OutsideTwice(b1, b2, v.buffer[..], lo, lo, hi);
  }

  /** What an entry leaves behind its key when it is finished. */
  lemma BodyOf(entry: Option<Kind>, inner: Script, items: Items, maxSize: nat) returns (body: Body)
    requires Ran(entry, inner, items) && |ItemBytes(items)| <= maxSize < U32_COUNT
    ensures Filled(entry, inner, body) && |BodyBytes(body)| <= 5 + Room(inner)
    ensures BodyBytes(body) ==
            if RightTyped(entry, inner) && TypeAfter(entry, inner).Some?
            then FinalHead(TypeOf(TypeAfter(entry, inner).value), maxSize, |ItemBytes(items)|) + ItemBytes(items) else []
  {
    hide ItemBytes, Range, NestedHead, FinalHead, ItemsFit, NoneLost, EntriesGood, RightTyped;
    if Finishes(entry, inner) {
      var kind := TypeAfter(entry, inner).value;
      FinalIsNested(kind, maxSize, |ItemBytes(items)|);
      var form :| form < 3 && FinalHead(TypeOf(kind), maxSize, |ItemBytes(items)|) == NestedHead(kind, form, |ItemBytes(items)|) && |ItemBytes(items)| < Range(Width(form));
      body := Nested(kind, form, items);
    } else {
      body := Lost(KindMeant(entry, inner), ForestOf(inner));
    }
  }

  lemma PrefixKept(b: seq<u8>, b': seq<u8>, from: nat, lo: nat, hi: nat)
    requires SameOutside(b, b', lo, hi) && from <= lo
    ensures b'[from..lo] == b[from..lo]
  {
    assert b'[from..lo] == b'[..lo][from..] && b[from..lo] == b[..lo][from..];
  }

  // ----- a whole container

  /** A finished container is read as its kind and its payload, whatever follows in the buffer. */
  lemma FinishedReads(b: seq<u8>, b': seq<u8>, kind: Kind, maxSize: nat, start: nat, size: nat)
    requires size <= maxSize < U32_COUNT && start + size <= |b| && b' == FinalHead(TypeOf(kind), maxSize, size) + b[start..]
    ensures FromBuffer(b') == Ok(Read(Variant(TypeOf(kind), b[start..start + size]), HeadSize(maxSize) + size))
  {
    hide FinalHead, FromBuffer, Announces;
    var head, payload, rest := FinalHead(TypeOf(kind), maxSize, size), b[start..start + size], b[start + size..];
    assert b[start..] == payload + rest;
    assert b' == head + payload + rest;
    FinalHeadAnnounces(TypeOf(kind), maxSize, size);
    AnnouncedRead(head, TypeOf(kind), payload, rest);
  }

  /** The payload of a container that was finished reads to what was inserted exactly if nothing was lost in it. */
  lemma RanReads(t: Option<Kind>, s: Script, items: Items)
    requires Ran(t, s, items) && Finishes(t, s)
    ensures var kind := TypeAfter(t, s).value;
            Unpack(Variant(TypeOf(kind), ItemBytes(items))) == Ok(Node(kind, ForestOf(s))) <==> Good(t, s)
  {
    hide Entries, ItemBytes, Unpack, NoneLost, EntriesGood, ItemsFit;
    var kind := TypeAfter(t, s).value;
    ReadsExactly(kind, items);
    NodeUnpacks(kind, ItemBytes(items), ForestOf(s));
  }

  /**
   * A whole container: Prepare, the calls, Finish. It is finished unless a call on it had the wrong type or none
   * gave it one, and the reader gets back exactly what was inserted, whatever follows in the buffer, if and only if
   * the same holds of every entry in it.
   */
  method BuildContainer(buffer: array<u8>, t: Option<Kind>, s: Script) returns (len: nat, ghost payload: seq<u8>)
    requires ScriptFits(s) && 5 + Room(s) <= buffer.Length < U32_COUNT
    modifies buffer
    ensures len > 0 <==> Finishes(t, s)
    ensures len > 0 ==> FromBuffer(buffer[..]) == Ok(Read(Variant(TypeOf(TypeAfter(t, s).value), payload), len))
    ensures len > 0 && Unpack(Variant(TypeOf(KindMeant(t, s)), payload)) == Ok(Node(KindMeant(t, s), ForestOf(s))) <==> Good(t, s)
  {
    hide FinalHead, FromBuffer, SameOutside, CVariant.Contents, ScriptFits, Room, ForestOf, Ran, Unpack, RightTyped, EntriesGood, HeadSize, ItemBytes, TypeAfter, Good;
    var v := new CVariant.Prepare(TypeByte(t), buffer, 0, buffer.Length);
    ContentsAre(v);
    assert v.Contents() == [];
    ghost var items := Run(v, t, s);
    ContentsAre(v);
    payload := ItemBytes(items);
    assert payload == v.Contents();
    ghost var b := buffer[..];
    len := v.Finish(0);
    assert b[..0] == [];
    ContainerDone(b, buffer[..], t, s, items, v.maxSize, v.start, v.size, v.Failed() || v.varType == VAR_EMPTY, len);
  }

  /** A container after Finish, whether that wrote a header or not. */
  lemma ContainerDone(b: seq<u8>, b': seq<u8>, t: Option<Kind>, s: Script, items: Items, maxSize: nat, start: nat, size: nat, refused: bool, len: nat)
    requires Ran(t, s, items) && refused == !Finishes(t, s) && size <= maxSize < U32_COUNT && start + size <= |b| && b[start..start + size] == ItemBytes(items)
    requires if refused then len == 0 else len == HeadSize(maxSize) + size && b' == FinalHead(TypeByte(TypeAfter(t, s)), maxSize, size) + b[start..]
    ensures len > 0 <==> Finishes(t, s)
    ensures len > 0 ==> FromBuffer(b') == Ok(Read(Variant(TypeOf(TypeAfter(t, s).value), ItemBytes(items)), len))
    ensures len > 0 && Unpack(Variant(TypeOf(KindMeant(t, s)), ItemBytes(items))) == Ok(Node(KindMeant(t, s), ForestOf(s))) <==> Good(t, s)
  {
    hide FinalHead, FromBuffer, ItemBytes, Unpack, Ran, RightTyped, EntriesGood;
    if !refused { ContainerReads(b, b', t, s, items, maxSize, start, size); }
  }

  /** A container that has been finished, as the reader finds it. */
  lemma ContainerReads(b: seq<u8>, b': seq<u8>, t: Option<Kind>, s: Script, items: Items, maxSize: nat, start: nat, size: nat)
    requires Ran(t, s, items) && Finishes(t, s) && size <= maxSize < U32_COUNT && start + size <= |b|
    requires b[start..start + size] == ItemBytes(items) && b' == FinalHead(TypeOf(TypeAfter(t, s).value), maxSize, size) + b[start..]
    ensures var kind := TypeAfter(t, s).value;
            && FromBuffer(b') == Ok(Read(Variant(TypeOf(kind), ItemBytes(items)), HeadSize(maxSize) + size))
            && (Unpack(Variant(TypeOf(kind), ItemBytes(items))) == Ok(Node(kind, ForestOf(s))) <==> Good(t, s))
  {
    hide FinalHead, FromBuffer, ItemBytes, Unpack, Ran, RightTyped, Good;
    FinishedReads(b, b', TypeAfter(t, s).value, maxSize, start, size);
    RanReads(t, s, items);
  }

  // ----- an entry that is not finished

  /** An entry that is finished without a type or after an error leaves its key behind, and the container reports nothing. */
  method EnterLost(v: CVariant, kind: Kind, key: Key, entry: Option<Kind>, inner: Script)
    requires v.Valid() && !v.Failed() && (v.varType == VAR_EMPTY || v.varType == TypeOf(kind))
    requires KeyFits(kind, key) && ScriptFits(inner) && |WriteKey(key)| + 5 + Room(inner) <= v.maxSize - v.size && !Finishes(entry, inner)
    modifies v, v.buffer
    ensures v.Valid() && !v.Failed() && v.varType == TypeOf(kind)
    ensures v.Contents() == old(v.Contents()) + WriteKey(key)
    ensures Entries(kind, old(v.Contents())).Ok? ==>
              Entries(kind, v.Contents()) == if kind == List then Entries(kind, old(v.Contents())) else Err(INVALID_FORMAT)
  {
    hide Entries, WriteKey, KeyFits, SameOutside, Finishes, ScriptFits, Room;
    ghost var t := if v.varType == VAR_EMPTY then None else Some(kind);
    var right; ghost var body;
    right, body := EnterNested(v, t, kind, key, entry, inner);
    LostBytes(body);
    assert WriteKey(key) + BodyBytes(body) == WriteKey(key);
    if Entries(kind, old(v.Contents())).Ok? { LostEntryBreaks(kind, old(v.Contents()), key); }
  }

  /** The two ways to lose an entry: no type and no call, or a call of another type than its own. */
  lemma EntriesToLose(kind: Kind, call: Kind, key: Key, value: Variant)
    requires call != kind
    ensures !Finishes(None, Done) && !Finishes(Some(kind), Value(call, key, value, Done))
  {
  }

  /** A list goes on as if the entry had never been; a map or an index cannot be read any more. */
  lemma LostEntryBreaks(kind: Kind, payload: seq<u8>, key: Key)
    requires KeyFits(kind, key) && Entries(kind, payload).Ok?
    ensures Entries(kind, payload + WriteKey(key)) == if kind == List then Entries(kind, payload) else Err(INVALID_FORMAT)
  {
    hide ReadKey;
    assert WriteKey(key) + [] == WriteKey(key);
    if kind == List {
      assert payload + WriteKey(key) == payload;
    } else {
      LostEntrySwallows(kind, key, []);
      EntriesJoin(kind, payload, WriteKey(key));
    }
  }

  /** When something follows, it is taken for the value of the key that was left behind. */
  lemma LostEntrySwallows(kind: Kind, key: Key, more: seq<u8>)
    requires KeyFits(kind, key)
    ensures ReadEntry(kind, WriteKey(key) + more) ==
            match FromBuffer(more) { case Err(e) => Err(e) case Ok(v) => Ok(Read(Entry(key, v.value), |WriteKey(key)| + v.size)) }
  {
    hide ReadKey, FromBuffer, WriteKey;
    KeyRoundTrip(kind, key, more);
  }
}
