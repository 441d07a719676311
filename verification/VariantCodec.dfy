/** The Variant wire format: one value as a type byte, an optional length field and the payload. */
module VariantCodec {
  import opened Results

  type u8 = x: int | 0 <= x < 256

  /** Error codes standing for the package's error values. */
  const INVALID_FORMAT := 1
  const BUFFER_TOO_SMALL := 2
  const TYPE_MISMATCH := 4
  const NOT_FOUND := 5
  const NAME_TOO_LONG := 6

  const VAR_EMPTY := 0
  const VAR_MAP := 1
  const VAR_LIST := 2
  const VAR_INDEX := 3
  const VAR_BYTES := 7
  const VAR_UINT := 12
  const VAR_SINT := 13

  /** The type byte: five bits of type, the length-field bit, two bits of length form. */
  const TYPE_COUNT := 32
  const LEN_FIELD := 32
  const LEN8 := 0
  const LEN16 := 64
  const LEN32 := 128
  const LEN64 := 192
  const U32_COUNT := 0x1_0000_0000

  datatype Variant = Variant(varType: u8, data: seq<u8>)

  /** A decoded value and how many bytes it took. */
  datatype Read<T> = Read(value: T, size: nat)

  // ----- numbers, least significant byte first

  function Le(n: nat, width: nat): (r: seq<u8>)
    ensures |r| == width
  {
    if width == 0 then [] else [n % 256] + Le(n / 256, width - 1)
  }

  function FromLe(s: seq<u8>): nat {
    if s == [] then 0 else s[0] + 256 * FromLe(s[1..])
  }

  function Range(width: nat): (r: nat)
    ensures r > 0
  {
    if width == 0 then 1 else 256 * Range(width - 1)
  }

  lemma Ranges()
    ensures Range(1) == 0x100 && Range(2) == 0x1_0000 && Range(4) == U32_COUNT && Range(8) == U32_COUNT * U32_COUNT
  {
    assert Range(2) == 256 * Range(1) && Range(3) == 256 * Range(2) && Range(4) == 256 * Range(3);
    assert Range(5) == 256 * Range(4) && Range(6) == 256 * Range(5) && Range(7) == 256 * Range(6) && Range(8) == 256 * Range(7);
  }

  /** What is read back is the number as far as the width holds it. */
  lemma {:induction false} LeRoundTrip(n: nat, width: nat)
    ensures FromLe(Le(n, width)) == n % Range(width)
  {
    if width > 0 {
      LeRoundTrip(n / 256, width - 1);
      assert Le(n, width)[1..] == Le(n / 256, width - 1);
      ModSplit(n, Range(width - 1));
    }
  }

  lemma ModSplit(n: nat, r: nat)
    requires r > 0
    ensures n % (256 * r) == n % 256 + 256 * ((n / 256) % r)
  {
    var q, m := n / 256, (n / 256) % r;
    var k := q / r;
    assert q == k * r + m;
    assert n == 256 * q + n % 256;
    assert n == k * (256 * r) + (n % 256 + 256 * m);
    RemainderIs(n, 256 * r, k, n % 256 + 256 * m);
  }

  lemma RemainderIs(n: nat, d: nat, k: nat, m: nat)
    requires d > 0 && n == k * d + m && m < d
    ensures n % d == m
  {
    var p, r := n / d, n % d;
    assert n == p * d + r;
    if p < k { Monotone(p + 1, k, d); } else if k < p { Monotone(k + 1, p, d); }
  }

  lemma Monotone(a: int, b: int, d: nat)
    requires a <= b
    ensures a * d <= b * d
  {
  }

  lemma {:induction false} FromLeBounded(s: seq<u8>)
    ensures FromLe(s) < Range(|s|)
  {
    if s != [] {
      FromLeBounded(s[1..]);
    }
  }

  /** And the bytes that were read are those that the number is written in. */
  lemma {:induction false} FromLeRoundTrip(s: seq<u8>)
    ensures Le(FromLe(s), |s|) == s
  {
    if s != [] {
      FromLeRoundTrip(s[1..]);
      assert FromLe(s) % 256 == s[0] && FromLe(s) / 256 == FromLe(s[1..]);
    }
  }

  // ----- reading

  /** readSize: the payload length and the bytes of its field. */
  function ReadSize(buffer: seq<u8>, typeByte: u8): (r: Result<Read<nat>>)
    ensures r.Ok? ==> r.value.size <= 4 && (r.value.size > 0 ==> 1 + r.value.size <= |buffer|)
  {
    var form := typeByte / 64;
    if typeByte % TYPE_COUNT == VAR_EMPTY then Ok(Read(0, 0))
    else if typeByte / LEN_FIELD % 2 == 1 then
      if form == 3 then Err(INVALID_FORMAT)
      else
        var n := if form == 0 then 1 else if form == 1 then 2 else 4;
        if |buffer| < 1 + n then Err(BUFFER_TOO_SMALL) else Ok(Read(FromLe(buffer[1..1 + n]), n))
    else Ok(Read(if form == 0 then 1 else if form == 1 then 2 else if form == 2 then 4 else 8, 0))
  }

  function FromBuffer(buffer: seq<u8>): (r: Result<Read<Variant>>)
    ensures r.Ok? ==> |r.value.value.data| < r.value.size <= |buffer|
  {
    if |buffer| < 1 then Err(INVALID_FORMAT)
    else
      match ReadSize(buffer, buffer[0])
      case Err(e) => Err(e)
      case Ok(length) =>
        var offset := 1 + length.size;
        if offset + length.value > |buffer| then Err(BUFFER_TOO_SMALL)
        else Ok(Read(Variant(buffer[0] % TYPE_COUNT, buffer[offset..offset + length.value]), offset + length.value))
  }

  function FromPacket(buffer: seq<u8>): Result<Read<(seq<u8>, Variant)>> {
    if |buffer| < 1 then Err(INVALID_FORMAT)
    else
      var n := buffer[0];
      if |buffer| < 1 + n then Err(BUFFER_TOO_SMALL)
      else
        match FromBuffer(buffer[1 + n..])
        case Err(e) => Err(e)
        case Ok(v) => Ok(Read((buffer[1..1 + n], v.value), 1 + n + v.size))
  }

  // ----- writing

  /** The type byte and the length field; the field holds the length modulo its width. */
  function Head(varType: u8, length: nat): (r: seq<u8>)
    requires varType < TYPE_COUNT
    ensures 1 <= |r| <= 5
  {
    if varType == VAR_EMPTY then [VAR_EMPTY]
    else if length == 1 then [varType + LEN8]
    else if length == 2 then [varType + LEN16]
    else if length == 4 then [varType + LEN32]
    else if length == 8 then [varType + LEN64]
    else if length >= 65535 then [varType + LEN_FIELD + LEN32] + Le(length, 4)
    else if length >= 255 then [varType + LEN_FIELD + LEN16] + Le(length, 2)
    else [varType + LEN_FIELD + LEN8] + Le(length, 1)
  }

  /** writeToBuffer */
  function Write(v: Variant): (r: seq<u8>)
    requires v.varType < TYPE_COUNT
    ensures |r| == |Head(v.varType, |v.data|)| + |v.data|
  {
    Head(v.varType, |v.data|) + v.data
  }

  function ToPacket(name: seq<u8>, v: Variant): Result<seq<u8>>
    requires v.varType < TYPE_COUNT
  {
    if |name| > 127 then Err(NAME_TOO_LONG) else Ok([|name|] + name + Write(v))
  }

  // ----- what reading and writing have to do with each other

  /** A header of any of the accepted forms that announces `length` bytes of `varType`. */
  ghost predicate Announces(head: seq<u8>, varType: u8, length: nat) {
    && |head| > 0 && head[0] % TYPE_COUNT == varType
    && ReadSize(head, head[0]) == Ok(Read(length, |head| - 1))
  }

  /** Whatever follows a header does not change what it announces. */
  lemma AnnouncedRead(head: seq<u8>, varType: u8, data: seq<u8>, rest: seq<u8>)
    requires Announces(head, varType, |data|)
    ensures FromBuffer(head + data + rest) == Ok(Read(Variant(varType, data), |head| + |data|))
  {
    var b := head + data + rest;
    var n := |head| - 1;
    assert b[1..1 + n] == head[1..1 + n];
    assert b[|head|..|head| + |data|] == data;
  }

  lemma TypeByte(varType: u8, field: nat, form: nat)
    requires varType < TYPE_COUNT && field < 2 && form < 4
    ensures var t := varType + 32 * field + 64 * form;
            t < 256 && t % TYPE_COUNT == varType && t / LEN_FIELD % 2 == field && t / 64 == form
  {
  }

  /** A length field announces its number as far as it holds it. */
  lemma FieldAnnounces(varType: u8, form: nat, width: nat, length: nat)
    requires 0 < varType < TYPE_COUNT && form < 3 && width == [1, 2, 4][form]
    ensures Announces([varType + 32 + 64 * form] + Le(length, width), varType, length % Range(width))
  {
    TypeByte(varType, 1, form);
    LeRoundTrip(length, width);
    var h := [varType + 32 + 64 * form] + Le(length, width);
    assert h[1..1 + width] == Le(length, width);
  }

  /** Without a length field the form is the length. */
  lemma FormAnnounces(varType: u8, form: nat)
    requires 0 < varType < TYPE_COUNT && form < 4
    ensures varType + 64 * form < 256 && Announces([varType + 64 * form], varType, [1, 2, 4, 8][form])
  {
    TypeByte(varType, 0, form);
  }

  /** The header that is written announces the length as far as four bytes hold it. */
  lemma HeadAnnounces(varType: u8, length: nat)
    requires varType < TYPE_COUNT
    ensures Announces(Head(varType, length), varType, if varType == VAR_EMPTY then 0 else length % U32_COUNT)
  {
    hide Le, Range;
    if varType != VAR_EMPTY {
      hide Announces;
      Ranges();
      Remainder(length, U32_COUNT);
      if IsWidth(length) {
        FormAnnounces(varType, if length == 1 then 0 else if length == 2 then 1 else if length == 4 then 2 else 3);
      } else if length >= 65535 {
        FieldAnnounces(varType, 2, 4, length);
      } else if length >= 255 {
        Remainder(length, Range(2));
        FieldAnnounces(varType, 1, 2, length);
      } else {
        Remainder(length, Range(1));
        FieldAnnounces(varType, 0, 1, length);
      }
    }
  }

  /** The values the format can carry. */
  predicate Fits(v: Variant) {
    v.varType < TYPE_COUNT && |v.data| < U32_COUNT && (v.varType == VAR_EMPTY ==> v.data == [])
  }

  /** What comes back of a written value: as much of its payload as the length field announces. */
  lemma WrittenRead(v: Variant, rest: seq<u8>)
    requires v.varType < TYPE_COUNT
    ensures var n := if v.varType == VAR_EMPTY then 0 else |v.data| % U32_COUNT;
            n <= |v.data| && FromBuffer(Write(v) + rest) == Ok(Read(Variant(v.varType, v.data[..n]), |Head(v.varType, |v.data|)| + n))
  {
    hide Head, FromBuffer, Announces;
    var head := Head(v.varType, |v.data|);
    HeadAnnounces(v.varType, |v.data|);
    var n := if v.varType == VAR_EMPTY then 0 else |v.data| % U32_COUNT;
    assert v.data == v.data[..n] + v.data[n..];
    assert Write(v) + rest == head + v.data[..n] + (v.data[n..] + rest);
    AnnouncedRead(head, v.varType, v.data[..n], v.data[n..] + rest);
  }

  /** A written value reads back exactly when it fits, whatever follows it, and takes exactly the bytes written. */
  lemma RoundTrip(v: Variant, rest: seq<u8>)
    requires v.varType < TYPE_COUNT
    ensures FromBuffer(Write(v) + rest) == Ok(Read(v, |Write(v)|)) <==> Fits(v)
  {
    hide Head, FromBuffer;
    WrittenRead(v, rest);
    var n := if v.varType == VAR_EMPTY then 0 else |v.data| % U32_COUNT;
    assert Fits(v) <==> n == |v.data|;
    assert |v.data[..n]| == n && (n == |v.data| ==> v.data[..n] == v.data);
  }

  lemma ThreeParts(s: seq<u8>, a: nat, b: nat, rest: seq<u8>)
    requires a <= b <= |s|
    ensures s + rest == s[..a] + s[a..b] + (s[b..] + rest) && s[..b] == s[..a] + s[a..b] + []
  {
  }

  /** A value that can be read is the same however the buffer goes on. */
  lemma ReadExtends(buffer: seq<u8>, rest: seq<u8>)
    requires FromBuffer(buffer).Ok?
    ensures FromBuffer(buffer + rest) == FromBuffer(buffer)
    ensures FromBuffer(buffer[..FromBuffer(buffer).value.size]) == FromBuffer(buffer)
  {
    var r := FromBuffer(buffer).value;
    var size := ReadSize(buffer, buffer[0]).value.size;
    var head := buffer[..1 + size];
    assert head[1..1 + size] == buffer[1..1 + size];
    assert Announces(head, r.value.varType, |r.value.data|);
    hide FromBuffer, ReadSize, Announces;
    var data, tail := r.value.data, buffer[r.size..];
    ThreeParts(buffer, 1 + size, r.size, rest);
    AnnouncedRead(head, r.value.varType, data, tail + rest);
    AnnouncedRead(head, r.value.varType, data, []);
  }

  /** Whatever was read fits, so writing it again loses nothing and reading that gives the same. */
  lemma Rewritten(buffer: seq<u8>, rest: seq<u8>)
    requires FromBuffer(buffer).Ok?
    ensures var v := FromBuffer(buffer).value.value;
            Fits(v) && FromBuffer(Write(v) + rest) == Ok(Read(v, |Write(v)|))
  {
    var v := FromBuffer(buffer).value.value;
    Ranges();
    var s := ReadSize(buffer, buffer[0]).value;
    if s.size > 0 { FromLeBounded(buffer[1..1 + s.size]); }
    RoundTrip(v, rest);
  }

  /** The type byte is the one the writer takes for this length: no length field if it can do without, else the first form that fits. */
  predicate Shortest(first: u8, length: nat) {
    if first % TYPE_COUNT == VAR_EMPTY then first == VAR_EMPTY
    else if IsWidth(length) then first / LEN_FIELD % 2 == 0
    else first / 64 == if length >= 65535 then 2 else if length >= 255 then 1 else 0
  }

  /** Writing a value again gives the very bytes it was read from exactly when they are in the writer's form. */
  lemma RewrittenSame(buffer: seq<u8>)
    requires FromBuffer(buffer).Ok?
    ensures var r := FromBuffer(buffer).value;
            Write(r.value) == buffer[..r.size] <==> Shortest(buffer[0], |r.value.data|)
  {
    hide Le, FromLe;
    var r := FromBuffer(buffer).value;
    var size := ReadSize(buffer, buffer[0]).value.size;
    var head := Head(r.value.varType, |r.value.data|);
    HeadSame(buffer, r.value.varType, |r.value.data|, size);
    if Write(r.value) == buffer[..r.size] {
      assert |head| == 1 + size && head == Write(r.value)[..1 + size] == buffer[..1 + size];
    } else {
      assert buffer[..r.size] == buffer[..1 + size] + r.value.data;
    }
  }

  /** The header written for what a header announces is that header exactly when it is in the writer's form. */
  lemma HeadSame(buffer: seq<u8>, varType: u8, length: nat, size: nat)
    requires |buffer| > size && varType == buffer[0] % TYPE_COUNT && ReadSize(buffer, buffer[0]) == Ok(Read(length, size))
    ensures Head(varType, length) == buffer[..1 + size] <==> Shortest(buffer[0], length)
  {
    hide Le, FromLe;
    var t := buffer[0];
    FromLeRoundTrip(buffer[1..1 + size]);
    assert t == varType + 32 * (t / LEN_FIELD % 2) + 64 * (t / 64);
    assert buffer[..1 + size] == [t] + buffer[1..1 + size];
    if Head(varType, length) == buffer[..1 + size] {
      assert Head(varType, length)[0] == t;
    }
  }

  /** Writing again need not give the bytes that were read: 255 bytes under a one-byte length come out one byte longer. */
  lemma RewrittenLonger(data: seq<u8>)
    requires |data| == 255
    ensures var b := [VAR_BYTES + LEN_FIELD, 255] + data;
            FromBuffer(b) == Ok(Read(Variant(VAR_BYTES, data), |b|)) && |Write(Variant(VAR_BYTES, data))| == |b| + 1
  {
    var head: seq<u8> := [VAR_BYTES + LEN_FIELD, 255];
    assert head[1..2] == [255] && [255][1..] == [];
    assert FromLe([255]) == 255 + 256 * FromLe([]);
    AnnouncedRead(head, VAR_BYTES, data, []);
    assert head + data + [] == head + data;
  }

  /** The same for packets: the name has a length byte of its own, and ToPacket takes names up to 127 bytes. */
  lemma PacketRoundTrip(name: seq<u8>, v: Variant, rest: seq<u8>)
    requires Fits(v)
    ensures ToPacket(name, v).Ok? <==> |name| <= 127
    ensures |name| <= 127 ==> FromPacket(ToPacket(name, v).value + rest) == Ok(Read((name, v), |ToPacket(name, v).value|))
  {
    if |name| <= 127 {
      var b := ToPacket(name, v).value + rest;
      assert b[1..1 + |name|] == name;
      assert b[1 + |name|..] == Write(v) + rest;
      RoundTrip(v, rest);
    }
  }

  // ----- integers

  /** NewUInt: as many bytes as asked for, zero unless they are 1, 2, 4 or 8. */
  function NewUInt(value: nat, size: nat): Variant {
    Variant(VAR_UINT, if IsWidth(size) then Le(value, size) else seq(size, _ => 0))
  }

  predicate IsWidth(size: nat) {
    size == 1 || size == 2 || size == 4 || size == 8
  }

  function AsUInt64(v: Variant): Result<nat> {
    if v.varType != VAR_UINT then Err(TYPE_MISMATCH)
    else if IsWidth(|v.data|) then Ok(FromLe(v.data))
    else Err(INVALID_FORMAT)
  }

  /** NewInt: two's complement of the width. */
  function NewInt(value: int, size: nat): Variant {
    Variant(VAR_SINT, if IsWidth(size) then Le(value % Range(size), size) else seq(size, _ => 0))
  }

  function AsInt64(v: Variant): Result<int> {
    if v.varType != VAR_SINT then Err(TYPE_MISMATCH)
    else if IsWidth(|v.data|) then
      var n := FromLe(v.data);
      Ok(if 2 * n < Range(|v.data|) then n else n - Range(|v.data|))
    else Err(INVALID_FORMAT)
  }

  /** An unsigned integer comes back exactly when its width can hold it. */
  lemma UIntRoundTrip(value: nat, size: nat)
    ensures AsUInt64(NewUInt(value, size)) == Ok(value) <==> IsWidth(size) && value < Range(size)
  {
    if IsWidth(size) {
      LeRoundTrip(value, size);
      Remainder(value, Range(size));
    }
  }

  lemma Remainder(n: nat, d: nat)
    requires d > 0
    ensures n % d == n <==> n < d
  {
    if n < d { RemainderIs(n, d, 0, n); }
  }

  /** A signed integer comes back exactly when it is in the range of its width. */
  lemma IntRoundTrip(value: int, size: nat)
    ensures AsInt64(NewInt(value, size)) == Ok(value) <==> IsWidth(size) && -2 * value <= Range(size) && 2 * value < Range(size)
  {
    hide Le, FromLe, Range;
    if IsWidth(size) {
      var r := Range(size);
      LeRoundTrip(value % r, size);
      Remainder(value % r, r);
      TwosComplement(value, r);
    }
  }

  lemma TwosComplement(value: int, r: nat)
    requires r > 0
    ensures var n := value % r;
            (if 2 * n < r then n else n - r) == value <==> -2 * value <= r && 2 * value < r
  {
    var k, n := value / r, value % r;
    assert value == k * r + n;
    if k > 0 { Monotone(1, k, r); } else if k < -1 { Monotone(k, -2, r); }
  }
}
