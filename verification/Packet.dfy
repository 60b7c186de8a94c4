// The whole packet path: encode_game_packet (src/bon.rs), the x encryption (src/crypto.rs) and
// parsing with its field accessors and nested body (src/protocol.rs).
module Packet {
  import opened Bytes
  import opened BonWire
  import opened Bon
  import opened BonRoundTrip
  import opened BonCoder
  import BonSafety
  import Base64
  import Crypto
  import Utf8

  const CMD: Bytes := [99, 109, 100]
  const ACK: Bytes := [97, 99, 107]
  const SEQ: Bytes := [115, 101, 113]
  const TIME: Bytes := [116, 105, 109, 101]
  const BODY: Bytes := [98, 111, 100, 121]
  const CODE: Bytes := [99, 111, 100, 101]
  const RESP: Bytes := [114, 101, 115, 112]

  // ---------------------------------------------------------------- building a packet

  function Head(cmd: Bytes, ack: nat, seqNo: nat, time: int): seq<Field> {
    [Field(CMD, Text(cmd)), Field(ACK, Int(ack)), Field(SEQ, Int(seqNo)), Field(TIME, Int(time))]
  }

  /** The bytes of the optional fifth field, whose value is a nested encoding with its own table. */
  function BodyBytes(lib: Library, body: Option<Value>, t: StringTable): Bytes {
    if body.None? then []
    else EncodeText(BODY, t).bytes + EncodeBinary(Encode(lib, body.value, map[]).bytes)
  }

  function FieldCount(body: Option<Value>): nat { if body.Some? then 5 else 4 }

  function EncodePacket(lib: Library, head: seq<Field>, body: Option<Value>): Bytes {
    var e := EncodeFields(lib, head, map[]);
    [8] + Length(FieldCount(body)) + (e.bytes + BodyBytes(lib, body, e.table))
  }

  /** encode_game_packet */
  method EncodeGamePacket(lib: Library, cmd: Bytes, ack: nat, seqNo: nat, time: int, body: Option<Value>)
    returns (bytes: Bytes)
    ensures bytes == EncodePacket(lib, Head(cmd, ack, seqNo, time), body)
  {
    hide Encode, EncodeText, EncodeBinary, Length;
    var enc := new BonEncoder();
    enc.dw.WriteU8(8);
    enc.dw.Write7BitInt(FieldCount(body));
    var head := Head(cmd, ack, seqNo, time);
    enc.WriteFields(lib, head);
    if body.Some? {
      var nested := EncodeValue(lib, body.value);
      enc.WriteText(BODY);
      enc.WriteBinary(nested);
    }
    bytes := enc.dw.data;
  }

  // ---------------------------------------------------------------- reading a packet

  datatype ProtoMsg = ProtoMsg(raw: seq<Field>, limits: Limits)

  datatype ParseError = OversizeWire | Undecipherable(why: Crypto.Failure) | UndecodableBon | NotAnObject
  datatype BodyError = BadBase64 | BadBon | UnexpectedBody

  function ParseMessage(lib: Library, decompress: Bytes -> Option<Bytes>, data: Bytes,
                        maxWire: nat, maxPlain: nat, lim: Limits): Result<ProtoMsg, ParseError>
  {
    if |data| > maxWire then Err(OversizeWire)
    else
      match Crypto.TryAutoDecrypt(decompress, data, maxPlain)
      case Err(e) => Err(Undecipherable(e))
      case Ok(plain) =>
        var v := Decode(lib, lim, plain);
        if v.None? then Err(UndecodableBon)
        else if v.value.Object? then Ok(ProtoMsg(v.value.fields, lim))
        else Err(NotAnObject)
  }

  function CmdOf(m: ProtoMsg): Option<Bytes> {
    match Lookup(m.raw, CMD)
    case Some(Text(s)) => Some(s)
    case _ => None
  }

  /** ack, seq and resp: 0 unless the field is an integer that fits u32. */
  function U32Of(m: ProtoMsg, key: Bytes): nat {
    match Lookup(m.raw, key)
    case Some(Int(i)) => if 0 <= i < TWO_32 then i else 0
    case _ => 0
  }

  function TimeOf(m: ProtoMsg): int {
    match Lookup(m.raw, TIME)
    case Some(Int(i)) => if IsI64(i) then i else 0
    case _ => 0
  }

  /** code_opt */
  function CodeOf(m: ProtoMsg): Option<int> {
    match Lookup(m.raw, CODE)
    case Some(Int(i)) => if IsI32(i) then Some(i) else None
    case _ => None
  }

  /** raw_data_result */
  function RawData(lib: Library, m: ProtoMsg): Result<Option<Value>, BodyError> {
    match Lookup(m.raw, BODY)
    case None => Ok(None)
    case Some(Text(s)) =>
      var bytes := Base64.Decode(s);
      if bytes.None? then Err(BadBase64)
      else
        var v := Decode(lib, m.limits, bytes.value);
        if v.None? then Err(BadBon) else Ok(v)
    case Some(Object(fs)) => Ok(Some(Object(fs)))
    case Some(Null) => Ok(None)
    case Some(_) => Err(UnexpectedBody)
  }

  // ---------------------------------------------------------------- looking fields up

  lemma {:induction false} LookupInsert(fs: seq<Field>, key: Bytes, value: Value, wanted: Bytes)
    ensures Lookup(Insert(fs, key, value), wanted)
            == if wanted == key then Some(value) else Lookup(fs, wanted)
  {
    if fs == [] || Less(key, fs[0].key) {
      assert ([Field(key, value)] + fs)[1..] == fs;
    } else if key == fs[0].key {
      assert ([Field(key, value)] + fs[1..])[1..] == fs[1..];
    } else {
      LookupInsert(fs[1..], key, value, wanted);
      assert ([fs[0]] + Insert(fs[1..], key, value))[1..] == Insert(fs[1..], key, value);
    }
  }

  /** The map keeps the last value read for a key. */
  lemma LookupMapOf(entries: seq<Field>, last: Field, wanted: Bytes)
    ensures Lookup(MapOf(entries + [last]), wanted)
            == if wanted == last.key then Some(last.value) else Lookup(MapOf(entries), wanted)
  {
    assert (entries + [last])[..|entries|] == entries;
    LookupInsert(MapOf(entries), last.key, last.value, wanted);
  }

  /** In a map a field is found under its key, and nothing else is. */
  lemma {:induction false} LookupIff(fs: seq<Field>, key: Bytes, value: Value)
    requires SortedKeys(fs)
    ensures Lookup(fs, key) == Some(value) <==> Field(key, value) in fs
    ensures Lookup(fs, key) == None <==> forall f :: f in fs ==> f.key != key
  {
    hide Less;
    if fs != [] {
      LookupIff(fs[1..], key, value);
      assert fs == [fs[0]] + fs[1..];
      forall f | f in fs[1..] ensures f.key != fs[0].key {
        var i :| 0 <= i < |fs[1..]| && fs[1..][i] == f;
        assert Less(fs[0].key, fs[i + 1].key);
        LessTrichotomy(fs[0].key, f.key);
      }
    }
  }

  /** What a decoded map's "code" is read as: an integer of 32 bits, and nothing for any other value. */
  lemma CodesAreRead(m: ProtoMsg, code: int)
    requires SortedKeys(m.raw)
    ensures CodeOf(m) == Some(code) <==> Field(Ascii("code"), Int(code)) in m.raw && -0x8000_0000 <= code < 0x8000_0000
  {
    hide Lookup, SortedKeys;
    KeysAreNamed();
    LookupIff(m.raw, CODE, Int(code));
  }

  /** What a decoded map's "body" is read as: nothing if it is missing or null, itself if it is an object, the
      value encoded in it if it is the base64 text of an encoding, an error for any other value. */
  lemma BodiesAreRead(lib: Library, m: ProtoMsg, body: Value)
    requires SortedKeys(m.raw)
    ensures (forall f :: f in m.raw ==> f.key != Ascii("body")) ==> RawData(lib, m) == Ok(None)
    ensures Field(Ascii("body"), body) in m.raw ==>
              && (body.Null? ==> RawData(lib, m) == Ok(None))
              && (body.Object? ==> RawData(lib, m) == Ok(Some(body)))
              && (body.Bool? || body.Int? || body.Float? || body.Array? ==> RawData(lib, m) == Err(UnexpectedBody))
              && (body.Text? ==>
                    (forall data :: body.text == Base64.Encode(data) ==>
                       RawData(lib, m) == (if Decode(lib, m.limits, data).Some? then Ok(Decode(lib, m.limits, data))
                                           else Err(BadBon)))
                    && (Base64.Decode(body.text).None? ==> RawData(lib, m) == Err(BadBase64)))
  {
    hide Lookup, SortedKeys, Decode, Base64.Encode, Base64.Decode;
    KeysAreNamed();
    LookupIff(m.raw, BODY, body);
    if body.Text? {
      forall data | body.text == Base64.Encode(data) ensures Base64.Decode(body.text) == Some(data) {
        Base64.RoundTrip(data);
      }
    }
  }

  // ---------------------------------------------------------------- decoding the fields

  /** Reading n + m entries is reading n of them and then m more. */
  lemma {:induction false} DecodeFieldsSplit(lib: Library, lim: Limits, depth: nat, n: nat, m: nat, st: State,
                                             acc: seq<Field>)
    ensures var r := DecodeFields(lib, lim, depth, n, st, acc);
            DecodeFields(lib, lim, depth, n + m, st, acc)
            == if r.out.None? then r else DecodeFields(lib, lim, depth, m, r.st, r.out.value)
    decreases n
  {
    if n > 0 {
      var f := DecodeEntry(lib, lim, depth + 1, st);
      if f.out.Some? {
        DecodeFieldsSplit(lib, lim, depth, n - 1, m, f.st, acc + [f.out.value]);
      }
    }
  }

  /** A binary value costs its own bytes, and comes back as base64 text. */
  function BlobCost(blob: Bytes): Cost { Cost(0, 1, 0, |blob|, |blob|) }

  lemma BlobRoundTrip(lib: Library, lim: Limits, blob: Bytes, st: State, rest: Bytes, depth: nat)
    requires |blob| < TWO_32 && st.input == EncodeBinary(blob) + rest
    ensures var r := DecodeAt(lib, lim, depth, st);
            if Fits(BlobCost(blob), lim, depth, st.nodes, st.bytes)
            then r.out == Some(Text(Base64.Encode(blob)))
            else r.out == None
  {
    hide TakeCharged, Base64.Encode;
    var tail := Length(|blob|) + blob + rest;
    assert st.input == [7] + tail;
    TagStep(lib, lim, depth, st, 7, tail);
    if depth <= lim.depth && st.nodes > 0 {
      ChargedStep(lim, State(tail, st.table, st.nodes - 1, st.bytes), blob, rest);
    }
  }

  function BodyEntryCost(blob: Bytes): Cost { Join(TextCost(BODY), BlobCost(blob)) }

  lemma BodyEntryRoundTrip(lib: Library, lim: Limits, blob: Bytes, t: StringTable, st: State, rest: Bytes,
                           depth: nat)
    requires |blob| < TWO_32 && InStep(t, st, lim, 1)
    requires st.input == EncodeText(BODY, t).bytes + (EncodeBinary(blob) + rest)
    ensures var r := DecodeEntry(lib, lim, depth, st);
            if Fits(BodyEntryCost(blob), lim, depth, st.nodes, st.bytes)
            then r.out == Some(Field(BODY, Text(Base64.Encode(blob))))
            else r.out == None
  {
    hide DecodeAt, EncodeBinary, EncodeText, Base64.Encode, Utf8.Valid, Join, InStep, Fits;
    Utf8.AsciiIsValid(BODY);
    TextRoundTrip(lib, lim, BODY, t, st, EncodeBinary(blob) + rest, depth, 0);
    FitsJoin(TextCost(BODY), BlobCost(blob), lim, depth, st.nodes, st.bytes);
    if Fits(TextCost(BODY), lim, depth, st.nodes, st.bytes) {
      var s := DecodeAt(lib, lim, depth, st).st;
      BlobRoundTrip(lib, lim, blob, s, rest, depth);
    }
  }

  // ---------------------------------------------------------------- the packet comes back

  function Blob(lib: Library, body: Option<Value>): Bytes {
    if body.Some? then Encode(lib, body.value, map[]).bytes else []
  }

  function FieldsCost(lib: Library, head: seq<Field>, body: Option<Value>): Cost {
    if body.Some? then Join(CostOfFields(head), BodyEntryCost(Blob(lib, body))) else CostOfFields(head)
  }

  /** The entries the parser reads back. */
  function Entries(lib: Library, head: seq<Field>, body: Option<Value>): seq<Field> {
    ImageOfFields(lib, head)
    + if body.Some? then [Field(BODY, Text(Base64.Encode(Blob(lib, body))))] else []
  }

  ghost predicate GoodHead(lib: Library, head: seq<Field>) {
    && head != [] && WellFormedFields(head) && MeasurableFields(head) && RoundsToEightBytes(lib)
    && CostOfFields(head).nodes <= 8
  }

  lemma BodylessFields(lib: Library, lim: Limits, head: seq<Field>, st: State, rest: Bytes)
    requires GoodHead(lib, head) && InStep(map[], st, lim, 10)
    requires st.input == EncodeFields(lib, head, map[]).bytes + rest
    ensures var r := DecodeFields(lib, lim, 0, |head|, st, []);
            r.out == if Fits(CostOfFields(head), lim, 1, st.nodes, st.bytes)
                     then Some(ImageOfFields(lib, head)) else None
  {
    hide DecodeFields, EncodeFields, CostOfFields, ImageOfFields, WellFormedFields, MeasurableFields, Match;
    FieldsRoundTrip(lib, lim, head, map[], st, rest, 0, 2, []);
    assert [] + ImageOfFields(lib, head) == ImageOfFields(lib, head);
  }

  lemma FieldsWithBody(lib: Library, lim: Limits, head: seq<Field>, blob: Bytes, st: State, rest: Bytes)
    requires GoodHead(lib, head) && InStep(map[], st, lim, 10) && |blob| < TWO_32
    requires var e := EncodeFields(lib, head, map[]);
             st.input == e.bytes + (EncodeText(BODY, e.table).bytes + (EncodeBinary(blob) + rest))
    ensures var r := DecodeFields(lib, lim, 0, |head| + 1, st, []);
            r.out == if Fits(Join(CostOfFields(head), BodyEntryCost(blob)), lim, 1, st.nodes, st.bytes)
                     then Some(ImageOfFields(lib, head) + [Field(BODY, Text(Base64.Encode(blob)))]) else None
  {
    hide EncodeFields, CostOfFields, ImageOfFields, WellFormedFields, MeasurableFields, Match, Base64.Encode;
    hide EncodeText, EncodeBinary, DecodeEntry, BodyEntryCost, Fits, Join;
    var e, c := EncodeFields(lib, head, map[]), CostOfFields(head);
    var tail, last := EncodeText(BODY, e.table).bytes + (EncodeBinary(blob) + rest), BodyEntryCost(blob);
    FieldsRoundTrip(lib, lim, head, map[], st, tail, 0, 2, []);
    DecodeFieldsSplit(lib, lim, 0, |head|, 1, st, []);
    FitsJoin(c, last, lim, 1, st.nodes, st.bytes);
    assert [] + ImageOfFields(lib, head) == ImageOfFields(lib, head);
    if Fits(c, lim, 1, st.nodes, st.bytes) {
      var s := DecodeFields(lib, lim, 0, |head|, st, []).st;
      BodyEntryRoundTrip(lib, lim, blob, e.table, s, rest, 1);
    }
  }

  /** The packet decodes, whatever follows it, to the map of its fields exactly when its cost fits. */
  lemma DecodeOfPacket(lib: Library, lim: Limits, head: seq<Field>, body: Option<Value>, suffix: Bytes)
    requires GoodHead(lib, head) && |head| == 4 && |Blob(lib, body)| < TWO_32
    ensures Decode(lib, lim, EncodePacket(lib, head, body) + suffix)
            == if Fits(Wrap(FieldCount(body), FieldsCost(lib, head, body)), lim, 0, lim.nodes, lim.total)
               then Some(Object(MapOf(Entries(lib, head, body)))) else None
  {
    hide DecodeAt, DecodeFields, EncodeFields, CostOfFields, ImageOfFields, Base64.Encode, EncodeText;
    hide EncodeBinary, Match, MapOf, Length, BodyEntryCost, WellFormedFields, MeasurableFields;
    var e := EncodeFields(lib, head, map[]);
    var tail := e.bytes + BodyBytes(lib, body, e.table) + suffix;
    var data := EncodePacket(lib, head, body) + suffix;
    var st := Fresh(lim, data);
    assert data == [8] + Length(FieldCount(body)) + tail;
    ObjectStep(lib, lim, 0, st, FieldCount(body), tail);
    if lim.nodes > 0 && FieldCount(body) <= lim.items {
      var s := State(tail, [], lim.nodes - 1, lim.total);
      EmptyTablesInStep(lim, data, 10);
      if body.Some? {
        var blob := Blob(lib, body);
        assert tail == e.bytes + (EncodeText(BODY, e.table).bytes + (EncodeBinary(blob) + suffix));
        FieldsWithBody(lib, lim, head, blob, s, suffix);
        HeadIsShallow(head, BodyEntryCost(blob));
      } else {
        assert tail == e.bytes + suffix && Entries(lib, head, body) == ImageOfFields(lib, head);
        BodylessFields(lib, lim, head, s, suffix);
      }
    }
  }

  lemma HeadIsShallow(head: seq<Field>, last: Cost)
    requires head != []
    ensures CostOfFields(head).depth >= 0 && Join(CostOfFields(head), last).depth >= 0
  {
    hide CostOf;
  }

  // ---------------------------------------------------------------- the four header fields

  lemma FourFieldsCost(f0: Field, f1: Field, f2: Field, f3: Field)
    ensures CostOfFields([f0, f1, f2, f3])
            == Join(CostOfEntry(f0), Join(CostOfEntry(f1), Join(CostOfEntry(f2), Join(CostOfEntry(f3), NO_COST))))
  {
    hide CostOfEntry, Join;
    BonSafety.CostOfFieldsCons(f3, []);
    BonSafety.CostOfFieldsCons(f2, [f3]);
    BonSafety.CostOfFieldsCons(f1, [f2, f3]);
    BonSafety.CostOfFieldsCons(f0, [f1, f2, f3]);
    assert [f3] + [] == [f3] && [f2] + [f3] == [f2, f3] && [f1] + [f2, f3] == [f1, f2, f3];
    assert [f0] + [f1, f2, f3] == [f0, f1, f2, f3];
  }

  lemma SmallEntryCost(key: Bytes, value: Value)
    requires value.Int? || value.Text?
    ensures CostOfEntry(Field(key, value))
            == if value.Int? then Cost(0, 2, 0, |key|, |key|)
               else Cost(0, 2, 0, Max(|key|, |value.text|), |key| + |value.text|)
  {
  }

  lemma HeadCost(cmd: Bytes, ack: nat, seqNo: nat, time: int)
    ensures CostOfFields(Head(cmd, ack, seqNo, time)) == Cost(0, 8, 0, Max(4, |cmd|), |cmd| + 13)
  {
    hide CostOfFields, CostOfEntry;
    SmallEntryCost(CMD, Text(cmd));
    SmallEntryCost(ACK, Int(ack));
    SmallEntryCost(SEQ, Int(seqNo));
    SmallEntryCost(TIME, Int(time));
    FourFieldsCost(Field(CMD, Text(cmd)), Field(ACK, Int(ack)), Field(SEQ, Int(seqNo)), Field(TIME, Int(time)));
  }

  lemma KeysAreText()
    ensures Utf8.Valid(CMD) && Utf8.Valid(ACK) && Utf8.Valid(SEQ) && Utf8.Valid(TIME) && Utf8.Valid(BODY)
  {
    hide Utf8.Valid;
    Utf8.AsciiIsValid(CMD);
    Utf8.AsciiIsValid(ACK);
    Utf8.AsciiIsValid(SEQ);
    Utf8.AsciiIsValid(TIME);
    Utf8.AsciiIsValid(BODY);
  }

  lemma HeadIsGood(lib: Library, cmd: Bytes, ack: nat, seqNo: nat, time: int)
    requires RoundsToEightBytes(lib) && Utf8.Valid(cmd) && |cmd| < TWO_32
    requires ack < TWO_32 && seqNo < TWO_32 && IsI64(time)
    ensures GoodHead(lib, Head(cmd, ack, seqNo, time))
  {
    hide Utf8.Valid, CostOfFields, WellFormed, Measurable;
    var head := Head(cmd, ack, seqNo, time);
    HeadCost(cmd, ack, seqNo, time);
    KeysAreText();
    SmallValuesAreGood(cmd, ack);
    SmallValuesAreGood(cmd, seqNo);
    SmallValuesAreGood(cmd, time);
    assert WellFormedFields(head) && MeasurableFields(head) by {
      EachFieldIsGood(head);
    }
  }

  lemma EachFieldIsGood(head: seq<Field>)
    requires |head| == 4
    requires Utf8.Valid(head[0].key) && Utf8.Valid(head[1].key) && Utf8.Valid(head[2].key) && Utf8.Valid(head[3].key)
    requires |head[0].key| <= 4 && |head[1].key| <= 4 && |head[2].key| <= 4 && |head[3].key| <= 4
    requires WellFormed(head[0].value) && WellFormed(head[1].value)
    requires WellFormed(head[2].value) && WellFormed(head[3].value)
    requires Measurable(head[0].value) && Measurable(head[1].value)
    requires Measurable(head[2].value) && Measurable(head[3].value)
    ensures WellFormedFields(head) && MeasurableFields(head)
  {
    hide Utf8.Valid, WellFormed, Measurable;
  }

  lemma SmallValuesAreGood(cmd: Bytes, i: int)
    requires Utf8.Valid(cmd) && |cmd| < TWO_32 && IsI64(i)
    ensures WellFormed(Text(cmd)) && Measurable(Text(cmd)) && WellFormed(Int(i)) && Measurable(Int(i))
  {
    hide Utf8.Valid;
  }

  lemma ImageOfFieldsCons(lib: Library, f: Field, fs: seq<Field>)
    ensures ImageOfFields(lib, [f] + fs) == [ImageOfEntry(lib, f)] + ImageOfFields(lib, fs)
  {
    assert ([f] + fs)[1..] == fs;
  }

  lemma HeadImage(lib: Library, cmd: Bytes, ack: nat, seqNo: nat, time: int)
    requires ack < TWO_32 && seqNo < TWO_32 && IsI64(time)
    ensures ImageOfFields(lib, Head(cmd, ack, seqNo, time)) == Head(cmd, ack, seqNo, I64Image(time))
  {
    hide I64Image;
    var f0, f1 := Field(CMD, Text(cmd)), Field(ACK, Int(ack));
    var f2, f3 := Field(SEQ, Int(seqNo)), Field(TIME, Int(time));
    SmallImage(ack);
    SmallImage(seqNo);
    ImageOfFieldsCons(lib, f3, []);
    ImageOfFieldsCons(lib, f2, [f3]);
    ImageOfFieldsCons(lib, f1, [f2, f3]);
    ImageOfFieldsCons(lib, f0, [f1, f2, f3]);
    assert [f3] + [] == [f3] && [f2] + [f3] == [f2, f3] && [f1] + [f2, f3] == [f1, f2, f3];
    assert [f0] + [f1, f2, f3] == Head(cmd, ack, seqNo, time);
  }

  lemma ImageIsI64(i: int)
    requires IsI64(i)
    ensures IsI64(I64Image(i))
  {
  }

  lemma SmallImage(i: nat)
    requires i < TWO_32
    ensures I64Image(i) == i
  {
  }

  /** The field names of src/bon.rs and src/protocol.rs. */
  lemma KeysAreNamed()
    ensures CMD == Ascii("cmd") && ACK == Ascii("ack") && SEQ == Ascii("seq") && TIME == Ascii("time")
    ensures BODY == Ascii("body") && CODE == Ascii("code") && RESP == Ascii("resp")
  {
  }

  lemma KeysDiffer()
    ensures CMD != ACK && CMD != SEQ && CMD != TIME && CMD != BODY && ACK != SEQ && ACK != TIME
    ensures ACK != BODY && SEQ != TIME && SEQ != BODY && TIME != BODY
    ensures RESP !in {CMD, ACK, SEQ, TIME, BODY} && CODE !in {CMD, ACK, SEQ, TIME, BODY}
  {
    assert RESP[0] == 114 && CODE[1] == 111 && |CODE| == |BODY| == |TIME| == 4 && CODE[0] == 99;
    assert CMD[0] == 99 && ACK[0] == 97 && SEQ[0] == 115 && TIME[0] == 116 && BODY[0] == 98;
  }

  function HeadValue(cmd: Bytes, ack: nat, seqNo: nat, time: int, key: Bytes): Option<Value> {
    if key == CMD then Some(Text(cmd)) else if key == ACK then Some(Int(ack))
    else if key == SEQ then Some(Int(seqNo)) else if key == TIME then Some(Int(time)) else None
  }

  lemma HeadLookup(cmd: Bytes, ack: nat, seqNo: nat, time: int, key: Bytes)
    ensures Lookup(MapOf(Head(cmd, ack, seqNo, time)), key) == HeadValue(cmd, ack, seqNo, time, key)
  {
    hide MapOf;
    KeysDiffer();
    var f0, f1 := Field(CMD, Text(cmd)), Field(ACK, Int(ack));
    var f2, f3 := Field(SEQ, Int(seqNo)), Field(TIME, Int(time));
    LookupMapOf([], f0, key);
    LookupMapOf([f0], f1, key);
    LookupMapOf([f0, f1], f2, key);
    LookupMapOf([f0, f1, f2], f3, key);
    assert [] + [f0] == [f0] && [f0] + [f1] == [f0, f1] && [f0, f1] + [f2] == [f0, f1, f2];
    assert [f0, f1, f2] + [f3] == Head(cmd, ack, seqNo, time);
    assert Lookup(MapOf([]), key) == None by {
      EmptyMap(key);
    }
  }

  lemma EmptyMap(key: Bytes)
    ensures Lookup(MapOf([]), key) == None
  {
  }

  lemma PacketLookup(lib: Library, cmd: Bytes, ack: nat, seqNo: nat, time: int, body: Option<Value>, key: Bytes)
    requires ack < TWO_32 && seqNo < TWO_32 && IsI64(time)
    ensures Lookup(MapOf(Entries(lib, Head(cmd, ack, seqNo, time), body)), key)
            == if key == BODY then (if body.Some? then Some(Text(Base64.Encode(Blob(lib, body)))) else None)
               else HeadValue(cmd, ack, seqNo, I64Image(time), key)
  {
    hide MapOf, I64Image, Base64.Encode, Blob, ImageOfFields;
    var head := Head(cmd, ack, seqNo, I64Image(time));
    HeadImage(lib, cmd, ack, seqNo, time);
    HeadLookup(cmd, ack, seqNo, I64Image(time), key);
    KeysDiffer();
    if body.Some? {
      LookupMapOf(head, Field(BODY, Text(Base64.Encode(Blob(lib, body)))), key);
    } else {
      assert head + [] == head;
    }
  }

  // ---------------------------------------------------------------- the main theorem

  /** What the limits mean for a packet: nesting 1, 9 or 11 nodes, 4 or 5 fields, the command and the body
      bytes as texts, and all key, command and body bytes charged. */
  predicate PacketFits(lim: Limits, cmd: Bytes, blob: Option<Bytes>) {
    && 1 <= lim.depth
    && (if blob.Some? then 11 else 9) <= lim.nodes
    && (if blob.Some? then 5 else 4) <= lim.items
    && 4 <= lim.value && |cmd| <= lim.value && (blob.Some? ==> |blob.value| <= lim.value)
    && |cmd| + 13 + (if blob.Some? then 4 + |blob.value| else 0) <= lim.total
  }

  function BlobOption(lib: Library, body: Option<Value>): Option<Bytes> {
    if body.Some? then Some(Blob(lib, body)) else None
  }

  lemma PacketFitsIsFits(lib: Library, lim: Limits, cmd: Bytes, ack: nat, seqNo: nat, time: int,
                         body: Option<Value>)
    ensures Fits(Wrap(FieldCount(body), FieldsCost(lib, Head(cmd, ack, seqNo, time), body)), lim, 0,
                 lim.nodes, lim.total)
            <==> PacketFits(lim, cmd, BlobOption(lib, body))
  {
    hide CostOfFields, Encode;
    HeadCost(cmd, ack, seqNo, time);
  }

  predicate Sendable(lib: Library, body: Option<Value>) {
    body.Some? ==> && WellFormed(body.value) && Measurable(body.value) && CostOf(body.value).nodes <= TWO_32
                   && |Blob(lib, body)| < TWO_32
  }

  /** What raw_data_result gives for the body sent: nothing, the body with its integers' images, or an
      error when the body does not fit the limits. */
  function BodyImage(lib: Library, lim: Limits, body: Option<Value>): Result<Option<Value>, BodyError> {
    if body.None? then Ok(None)
    else if Fits(CostOf(body.value), lim, 0, lim.nodes, lim.total) then Ok(Some(Image(lib, body.value)))
    else Err(BadBon)
  }

  lemma BodyRoundTrip(lib: Library, lim: Limits, m: ProtoMsg, body: Option<Value>)
    requires RoundsToEightBytes(lib) && Sendable(lib, body) && m.limits == lim
    requires Lookup(m.raw, BODY)
             == if body.Some? then Some(Text(Base64.Encode(Blob(lib, body)))) else None
    ensures RawData(lib, m) == BodyImage(lib, lim, body)
  {
    hide Decode, Base64.Encode, Base64.Decode;
    if body.Some? {
      Base64.RoundTrip(Blob(lib, body));
      DecodeOfEncode(lib, lim, body.value, []);
      assert Blob(lib, body) + [] == Blob(lib, body);
    }
  }

  /** For every command, ack, seq, time and body, every mask and every random prefix: the encrypted packet
      parses exactly when it fits, and the same fields and body come back. */
  lemma PacketRoundTrip(lib: Library, decompress: Bytes -> Option<Bytes>, cmd: Bytes, ack: nat, seqNo: nat,
                        time: int, body: Option<Value>, mask: Byte, prefix: Bytes,
                        maxWire: nat, maxPlain: nat, lim: Limits)
    requires RoundsToEightBytes(lib) && Utf8.Valid(cmd) && |cmd| < TWO_32 && |prefix| == 4
    requires ack < TWO_32 && seqNo < TWO_32 && IsI64(time) && Sendable(lib, body)
    ensures var packet := EncodePacket(lib, Head(cmd, ack, seqNo, time), body);
            var wire := Crypto.EncryptX(packet, mask, prefix);
            var r := ParseMessage(lib, decompress, wire, maxWire, maxPlain, lim);
            if |packet| + 4 > maxWire then r == Err(OversizeWire)
            else if |packet| > maxPlain then r == Err(Undecipherable(Crypto.OversizeX))
            else if !PacketFits(lim, cmd, BlobOption(lib, body)) then r == Err(UndecodableBon)
            else
              && r.Ok?
              && CmdOf(r.value) == Some(cmd)
              && U32Of(r.value, ACK) == ack
              && U32Of(r.value, SEQ) == seqNo
              && TimeOf(r.value) == I64Image(time)
              && U32Of(r.value, RESP) == 0 && CodeOf(r.value) == None
              && RawData(lib, r.value) == BodyImage(lib, lim, body)
  {
    hide Decode, Crypto.EncryptX, Crypto.DecryptX, EncodePacket, Fits, MapOf, RawData, Base64.Encode;
    hide Entries, Blob, FieldsCost, GoodHead, PacketFits, I64Image, Utf8.Valid, Sendable, Lookup;
    var head := Head(cmd, ack, seqNo, time);
    var packet := EncodePacket(lib, head, body);
    var wire := Crypto.EncryptX(packet, mask, prefix);
    Crypto.DecryptOfEncryptX(packet, mask, prefix);
    HeadIsGood(lib, cmd, ack, seqNo, time);
    BlobIsShort(lib, body);
    assert packet + [] == packet;
    DecodeOfPacket(lib, lim, head, body, []);
    PacketFitsIsFits(lib, lim, cmd, ack, seqNo, time, body);
    if |packet| + 4 <= maxWire && |packet| <= maxPlain && PacketFits(lim, cmd, BlobOption(lib, body)) {
      var m := ProtoMsg(MapOf(Entries(lib, head, body)), lim);
      assert ParseMessage(lib, decompress, wire, maxWire, maxPlain, lim) == Ok(m);
      KeysDiffer();
      ImageIsI64(time);
      PacketLookup(lib, cmd, ack, seqNo, time, body, CMD);
      PacketLookup(lib, cmd, ack, seqNo, time, body, ACK);
      PacketLookup(lib, cmd, ack, seqNo, time, body, SEQ);
      PacketLookup(lib, cmd, ack, seqNo, time, body, TIME);
      PacketLookup(lib, cmd, ack, seqNo, time, body, BODY);
      PacketLookup(lib, cmd, ack, seqNo, time, body, RESP);
      PacketLookup(lib, cmd, ack, seqNo, time, body, CODE);
      BodyRoundTrip(lib, lim, m, body);
    }
  }

  lemma BlobIsShort(lib: Library, body: Option<Value>)
    requires Sendable(lib, body)
    ensures |Blob(lib, body)| < TWO_32
  {
  }

  /** A packet that parses returns the time it was given exactly when the 64-bit coder keeps it. */
  lemma TimeSurvivesIff(lib: Library, decompress: Bytes -> Option<Bytes>, cmd: Bytes, ack: nat, seqNo: nat,
                        time: int, body: Option<Value>, mask: Byte, prefix: Bytes,
                        maxWire: nat, maxPlain: nat, lim: Limits)
    requires RoundsToEightBytes(lib) && Utf8.Valid(cmd) && |cmd| < TWO_32 && |prefix| == 4
    requires ack < TWO_32 && seqNo < TWO_32 && IsI64(time) && Sendable(lib, body)
    ensures var wire := Crypto.EncryptX(EncodePacket(lib, Head(cmd, ack, seqNo, time), body), mask, prefix);
            var r := ParseMessage(lib, decompress, wire, maxWire, maxPlain, lim);
            r.Ok? ==> (TimeOf(r.value) == time <==> !(time < 0 && time % TWO_32 == 0))
  {
    hide ParseMessage, EncodePacket, Crypto.EncryptX, TimeOf, RawData, CmdOf, U32Of, PacketFits, Sendable, BodyImage;
    PacketRoundTrip(lib, decompress, cmd, ack, seqNo, time, body, mask, prefix, maxWire, maxPlain, lim);
  }
}
