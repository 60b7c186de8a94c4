// What the BON decoder of src/bon.rs makes of each tag, the ones its own encoder never writes included.
module BonTags {
  import opened Bytes
  import opened BonWire
  import opened Bon
  import opened BonRoundTrip
  import Base64
  import Utf8

  /** Little-endian two's complement of four and of eight bytes. */
  function Unsigned32(b: Bytes): int
    requires |b| == 4
  {
    var b0: int, b1: int, b2: int, b3: int := b[0], b[1], b[2], b[3];
    b0 + 0x100 * b1 + 0x1_0000 * b2 + 0x100_0000 * b3
  }

  function Signed32(b: Bytes): int
    requires |b| == 4
  {
    Unsigned32(b) - if b[3] >= 128 then 0x1_0000_0000 else 0
  }

  function Signed64(b: Bytes): int
    requires |b| == 8
  {
    Unsigned32(b[..4]) + 0x1_0000_0000 * Signed32(b[4..])
  }

  lemma WordIsSigned(b0: Byte, b1: Byte, b2: Byte, b3: Byte)
    ensures ToI32(Word(b0, b1, b2, b3)) == Word(b0, b1, b2, b3) - if b3 >= 128 then TWO_32 else 0
  {
    var u := Word(b0, b1, b2, b3);
    assert 0 <= u < TWO_32 && (u >= 0x8000_0000 <==> b3 >= 128);
    if u >= 0x8000_0000 {
      assert (u - I32_MIN) % TWO_32 == u - I32_MIN - TWO_32;
    }
  }

  lemma IntegersAreLittleEndian(b: Bytes)
    ensures TakeI32(b) == (if |b| < 4 then Read(b, None) else Read(b[4..], Some(Signed32(b[..4]))))
    ensures |b| >= 8 ==> TakeI64(b) == Read(b[8..], Some(Signed64(b[..8])))
    ensures |b| < 8 ==> TakeI64(b).out == None
  {
    hide ToI32;
    if |b| >= 4 {
      WordIsSigned(b[0], b[1], b[2], b[3]);
    }
    if |b| >= 8 {
      WordIsSigned(b[4], b[5], b[6], b[7]);
      assert b[4..][4..] == b[8..];
    }
  }

  /** Which of the tags that stand for one fixed-size value are read, from how many bytes and as what. A float
      that is not finite is read as null, and 10, a time stamp, is read as 2 is. */
  function Scalar(lib: Library, tag: Byte, rest: Bytes): Option<(nat, Value)> {
    if tag == 0 then Some((0, Null))
    else if tag == 1 && |rest| >= 4 then Some((4, Int(Signed32(rest[..4]))))
    else if tag in {2, 10} && |rest| >= 8 then Some((8, Int(Signed64(rest[..8]))))
    else if tag == 3 && |rest| >= 4 then
      var wide := lib.widen(rest[..4]);
      Some((4, if Finite(wide) then Float(wide) else Null))
    else if tag == 4 && |rest| >= 8 then Some((8, if Finite(rest[..8]) then Float(rest[..8]) else Null))
    else if tag == 6 && |rest| >= 1 then Some((1, Bool(rest[0] == 1)))
    else None
  }

  /** Every node costs one of the nodes allowed. Its tag is one of a fixed-size value, read as above and leaving
      texts and bytes alone, or of a text, collection or reference; any other node is refused. */
  lemma ScalarTags(lib: Library, lim: Limits, depth: nat, st: State)
    ensures depth > lim.depth || st.nodes == 0 || st.input == [] ==> DecodeAt(lib, lim, depth, st).out == None
    ensures depth <= lim.depth && st.nodes > 0 && st.input != [] && st.input[0] !in {5, 7, 8, 9, 99} ==>
              var r, s := DecodeAt(lib, lim, depth, st), Scalar(lib, st.input[0], st.input[1..]);
              if s.None? then r.out == None
              else r == Step(State(st.input[1 + s.value.0..], st.table, st.nodes - 1, st.bytes), Some(s.value.1))
  {
    hide Signed32, Signed64, TakeI32, TakeI64, Finite;
    if st.input != [] {
      var rest := st.input[1..];
      IntegersAreLittleEndian(rest);
      assert |rest| >= 4 ==> rest[4..] == st.input[5..];
      assert |rest| >= 8 ==> rest[8..] == st.input[9..];
      assert |rest| >= 1 ==> rest[1..] == st.input[2..];
    }
  }

  /** A length that passes both byte limits is charged; a text is read leniently and remembered, and binary data
      becomes its base64 text, which is not. */
  lemma LengthTags(lib: Library, lim: Limits, depth: nat, st: State, tag: Byte, data: Bytes, rest: Bytes)
    requires tag in {5, 7} && |data| < 0x1_0000_0000
    requires depth <= lim.depth && st.nodes > 0 && st.input == [tag] + (Length(|data|) + data + rest)
    ensures var r := DecodeAt(lib, lim, depth, st);
            if |data| > lim.value || |data| > st.bytes then r.out == None
            else
              var text := if tag == 5 then Utf8.Lossy(data) else Base64.Encode(data);
              && r.out == Some(Text(text))
              && r.st == State(rest, if tag == 5 then st.table + [text] else st.table, st.nodes - 1, st.bytes - |data|)
  {
    hide TakeCharged, Utf8.Lossy, Base64.Encode, Length;
    var tail := Length(|data|) + data + rest;
    TagStep(lib, lim, depth, st, tag, tail);
    ChargedStep(lim, State(tail, st.table, st.nodes - 1, st.bytes), data, rest);
  }

  /** A key need not be a text: any other value is read as its JSON text, so a map of one entry with any encoded
      value as its key comes back under that text. */
  lemma AnyKeyIsRead(lib: Library, lim: Limits, k: Value, v: Value, rest: Bytes)
    requires WellFormed(k) && WellFormed(v) && Measurable(k) && Measurable(v) && RoundsToEightBytes(lib)
    requires CostOf(k).nodes + CostOf(v).nodes <= TWO_32
    ensures var key := Encode(lib, k, map[]);
            var data := [8] + Length(1) + (key.bytes + (Encode(lib, v, key.table).bytes + rest));
            Decode(lib, lim, data)
            == if Fits(Wrap(1, Join(CostOf(k), CostOf(v))), lim, 0, lim.nodes, lim.total) then
                 Some(Object([Field(if k.Text? then k.text else lib.display(Image(lib, k)), Image(lib, v))]))
               else None
  {
    hide Encode, Image, CostOf, WellFormed, Measurable, Length, DecodeAt, DecodeFields, MapOf, Join;
    var key, value := Encode(lib, k, map[]), Encode(lib, v, Encode(lib, k, map[]).table);
    var tail := key.bytes + (value.bytes + rest);
    var st := Fresh(lim, [8] + Length(1) + tail);
    ObjectStep(lib, lim, 0, st, 1, tail);
    if lim.nodes > 0 && 1 <= lim.items {
      EntryOfAnyKey(lib, lim, k, v, State(tail, [], lim.nodes - 1, lim.total), rest);
    }
  }

  lemma EntryOfAnyKey(lib: Library, lim: Limits, k: Value, v: Value, s: State, rest: Bytes)
    requires WellFormed(k) && WellFormed(v) && Measurable(k) && Measurable(v) && RoundsToEightBytes(lib)
    requires CostOf(k).nodes + CostOf(v).nodes <= TWO_32 && s.table == []
    requires var key := Encode(lib, k, map[]);
             s.input == key.bytes + (Encode(lib, v, key.table).bytes + rest)
    ensures var q := DecodeFields(lib, lim, 0, 1, s, []);
            if Fits(Join(CostOf(k), CostOf(v)), lim, 1, s.nodes, s.bytes) then
              q.out.Some?
              && MapOf(q.out.value)
                 == [Field(if k.Text? then k.text else lib.display(Image(lib, k)), Image(lib, v))]
            else q.out == None
  {
    hide Encode, Image, CostOf, WellFormed, Measurable, DecodeAt, DecodeFields, InStep, MapOf, Fits, Join;
    var key, value := Encode(lib, k, map[]), Encode(lib, v, Encode(lib, k, map[]).table);
    TablesInStep(s, lim, CostOf(k).nodes + CostOf(v).nodes);
    ValueRoundTrip(lib, lim, k, map[], s, value.bytes + rest, 1, CostOf(v).nodes);
    FitsJoin(CostOf(k), CostOf(v), lim, 1, s.nodes, s.bytes);
    if Fits(CostOf(k), lim, 1, s.nodes, s.bytes) {
      ValueRoundTrip(lib, lim, v, key.table, DecodeAt(lib, lim, 1, s).st, rest, 1, 0);
    }
    OneEntry(lib, lim, s);
    TextsStayTexts(lib, k);
  }

  lemma TablesInStep(s: State, lim: Limits, texts: nat)
    requires s.table == [] && texts <= TWO_32
    ensures InStep(map[], s, lim, texts)
  {
  }

  lemma TextsStayTexts(lib: Library, v: Value)
    ensures Image(lib, v).Text? <==> v.Text?
    ensures v.Text? ==> Image(lib, v) == v
  {
  }

  /** The map of a single entry read. */
  lemma OneEntry(lib: Library, lim: Limits, s: State)
    ensures var key, q := DecodeAt(lib, lim, 1, s), DecodeFields(lib, lim, 0, 1, s, []);
            var value := DecodeAt(lib, lim, 1, key.st);
            if key.out.None? || value.out.None? then q.out == None
            else
              q.out.Some?
              && MapOf(q.out.value)
                 == [Field(if key.out.value.Text? then key.out.value.text else lib.display(key.out.value),
                           value.out.value)]
  {
    hide DecodeAt;
    var e := DecodeEntry(lib, lim, 1, s);
    if e.out.Some? {
      assert [] + [e.out.value] == [e.out.value];
      assert [e.out.value][..0] == [];
    }
  }
}
