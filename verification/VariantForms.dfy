/** Which bytes are a value: the forms a header may take, written out, and the error for everything else. */
module VariantForms {
  import opened Results
  import opened VariantCodec

  /** The width of the length field, or the length itself without a field, by the two bits of the form. */
  function Width(form: nat): (r: nat)
    requires form < 4
  {
    if form == 0 then 1 else if form == 1 then 2 else if form == 2 then 4 else 8
  }

  /**
   * A header of `varType` for a payload of `length` bytes: for the empty type one byte whatever its upper bits are,
   * else a type byte whose form is the length, or one with a field of 1, 2 or 4 bytes that holds the length.
   */
  ghost predicate Heads(head: seq<u8>, varType: nat, length: nat) {
    if varType == 0 then length == 0 && exists upper :: 0 <= upper < 8 && head == [32 * upper]
    else
      || (varType < 32 && exists form :: 0 <= form < 4 && length == Width(form) && head == [varType + 64 * form])
      || (varType < 32 && exists form :: 0 <= form < 3 && length < Range(Width(form))
                                         && head == [varType + 32 + 64 * form] + Le(length, Width(form)))
  }

  lemma HeadsAnnounce(head: seq<u8>, varType: u8, length: nat)
    requires Heads(head, varType, length)
    ensures Announces(head, varType, length)
  {
    hide Le, Range, Announces;
    if varType == 0 {
      var upper :| 0 <= upper < 8 && head == [32 * upper];
      EmptyAnnounces(upper);
    } else if form :| 0 <= form < 4 && length == Width(form) && head == [varType + 64 * form] {
      FormAnnounces(varType, form);
    } else {
      var form :| 0 <= form < 3 && length < Range(Width(form)) && head == [varType + 32 + 64 * form] + Le(length, Width(form));
      FieldAnnounces(varType, form, Width(form), length);
      Remainder(length, Range(Width(form)));
    }
  }

  lemma EmptyAnnounces(upper: nat)
    requires upper < 8
    ensures Announces([32 * upper], 0, 0)
  {
  }

  lemma AnnouncesHeads(head: seq<u8>, varType: u8, length: nat)
    requires Announces(head, varType, length)
    ensures Heads(head, varType, length)
  {
    hide Le, FromLe, Range;
    var t := head[0];
    var form, field := t / 64, t / 32 % 2;
    assert t == varType + 32 * field + 64 * form;
    if varType == 0 {
      assert head == [32 * (field + 2 * form)];
    } else if field == 0 {
      assert head == [varType + 64 * form] && length == Width(form);
    } else {
      FromLeRoundTrip(head[1..]);
      FromLeBounded(head[1..]);
      assert head[1..1 + Width(form)] == head[1..];
      assert head == [varType + 32 + 64 * form] + Le(length, Width(form));
    }
  }

  /** FromBuffer reads a value exactly when the buffer starts with a header of one of these forms and all of its payload. */
  lemma ReadsExactly(buffer: seq<u8>, v: Variant, size: nat)
    ensures FromBuffer(buffer) == Ok(Read(v, size)) <==>
            |v.data| < size <= |buffer| && Heads(buffer[..size - |v.data|], v.varType, |v.data|) && buffer[size - |v.data|..size] == v.data
  {
    hide Heads, Announces, FromBuffer;
    if |v.data| < size <= |buffer| && Heads(buffer[..size - |v.data|], v.varType, |v.data|) && buffer[size - |v.data|..size] == v.data {
      var head := buffer[..size - |v.data|];
      HeadsAnnounce(head, v.varType, |v.data|);
      AnnouncedRead(head, v.varType, v.data, buffer[size..]);
      assert head + v.data + buffer[size..] == buffer;
    }
    if FromBuffer(buffer) == Ok(Read(v, size)) {
      ReadHead(buffer, v, size);
      AnnouncesHeads(buffer[..size - |v.data|], v.varType, |v.data|);
    }
  }

  lemma ReadHead(buffer: seq<u8>, v: Variant, size: nat)
    requires FromBuffer(buffer) == Ok(Read(v, size))
    ensures |v.data| < size <= |buffer| && buffer[size - |v.data|..size] == v.data
    ensures Announces(buffer[..size - |v.data|], v.varType, |v.data|)
  {
    var n := ReadSize(buffer, buffer[0]).value.size;
    assert buffer[..1 + n][1..1 + n] == buffer[1..1 + n];
  }

  /**
   * The error for any other buffer: the format is invalid without a type byte, or with one from 225 on, which asks
   * for a length field of the fourth width; everything else is a buffer that ends too early.
   */
  lemma RefusedAs(buffer: seq<u8>)
    ensures buffer == [] || buffer[0] >= 225 ==> FromBuffer(buffer) == Err(INVALID_FORMAT)
    ensures buffer != [] && buffer[0] < 225 && FromBuffer(buffer).Err? ==> FromBuffer(buffer) == Err(BUFFER_TOO_SMALL)
  {
  }

  /** A buffer that ends too early can be read once enough follows. */
  lemma EndsTooEarly(buffer: seq<u8>) returns (rest: seq<u8>)
    requires FromBuffer(buffer) == Err(BUFFER_TOO_SMALL)
    ensures FromBuffer(buffer + rest).Ok?
  {
    hide FromLe;
    var n := if ReadSize(buffer, buffer[0]).Ok? then ReadSize(buffer, buffer[0]).value.size else 4;
    var longer := buffer + seq(n, _ => 0);
    assert ReadSize(longer, longer[0]).Ok?;
    rest := seq(n, _ => 0) + seq(ReadSize(longer, longer[0]).value.value, _ => 0);
    SameField(longer, seq(ReadSize(longer, longer[0]).value.value, _ => 0));
    assert buffer + rest == longer + seq(ReadSize(longer, longer[0]).value.value, _ => 0);
  }

  lemma SameField(buffer: seq<u8>, rest: seq<u8>)
    requires buffer != [] && ReadSize(buffer, buffer[0]).Ok?
    ensures ReadSize(buffer + rest, (buffer + rest)[0]) == ReadSize(buffer, buffer[0])
  {
    var n := ReadSize(buffer, buffer[0]).value.size;
    assert (buffer + rest)[1..1 + n] == buffer[1..1 + n];
  }
}
