// Decoding an encoded value: it succeeds exactly when the value's cost fits the five limits,
// and then gives back the value, the unread suffix and a matching string table.
module BonRoundTrip {
  import opened Bytes
  import opened BonWire
  import opened Bon
  import Utf8

  // ---------------------------------------------------------------- what a value costs to decode

  /** Nesting depth, nodes (keys counted), largest collection, longest text and all text bytes. */
  datatype Cost = Cost(depth: int, nodes: nat, widest: nat, longest: nat, total: nat)

  const NO_COST := Cost(-1, 0, 0, 0, 0)

  function Join(a: Cost, b: Cost): Cost {
    Cost(Max(a.depth, b.depth), a.nodes + b.nodes, Max(a.widest, b.widest),
         Max(a.longest, b.longest), a.total + b.total)
  }

  function Wrap(count: nat, inner: Cost): Cost {
    Cost(inner.depth + 1, inner.nodes + 1, Max(count, inner.widest), inner.longest, inner.total)
  }

  function TextCost(s: Bytes): Cost { Cost(0, 1, 0, |s|, |s|) }

  function CostOf(v: Value): (c: Cost)
    ensures c.depth >= 0
    decreases v
  {
    match v
    case Text(s) => TextCost(s)
    case Array(vs) => Wrap(|vs|, CostOfItems(vs))
    case Object(fs) => Wrap(|fs|, CostOfFields(fs))
    case _ => Cost(0, 1, 0, 0, 0)
  }

  function CostOfItems(vs: seq<Value>): (c: Cost)
    ensures c.depth >= -1
    decreases vs
  {
    if vs == [] then NO_COST else Join(CostOf(vs[0]), CostOfItems(vs[1..]))
  }

  function CostOfFields(fs: seq<Field>): (c: Cost)
    ensures c.depth >= -1
    decreases fs
  {
    if fs == [] then NO_COST else Join(CostOfEntry(fs[0]), CostOfFields(fs[1..]))
  }

  function CostOfEntry(f: Field): (c: Cost)
    ensures c.depth >= 0
    decreases f
  {
    Join(TextCost(f.key), CostOf(f.value))
  }

  /** The five limits, for a value met at `depth` with `nodes` and `bytes` still allowed. */
  predicate Fits(c: Cost, lim: Limits, depth: nat, nodes: int, bytes: int) {
    && depth + c.depth <= lim.depth
    && c.nodes <= nodes
    && c.widest <= lim.items
    && c.longest <= lim.value
    && c.total <= bytes
  }

  lemma FitsJoin(a: Cost, b: Cost, lim: Limits, depth: nat, nodes: int, bytes: int)
    ensures Fits(Join(a, b), lim, depth, nodes, bytes)
            <==> Fits(a, lim, depth, nodes, bytes)
                 && Fits(b, lim, depth, nodes - a.nodes, bytes - a.total)
  {
  }

  // ---------------------------------------------------------------- what the encoder can carry

  /** Lengths are written with 32 bits, so longer texts and collections are out of reach. */
  predicate Measurable(v: Value)
    decreases v
  {
    match v
    case Text(s) => |s| < TWO_32
    case Array(vs) => |vs| < TWO_32 && MeasurableItems(vs)
    case Object(fs) => |fs| < TWO_32 && MeasurableFields(fs)
    case _ => true
  }

  predicate MeasurableItems(vs: seq<Value>)
    decreases vs
  {
    forall i :: 0 <= i < |vs| ==> Measurable(vs[i])
  }

  predicate MeasurableFields(fs: seq<Field>)
    decreases fs
  {
    forall i :: 0 <= i < |fs| ==> |fs[i].key| < TWO_32 && Measurable(fs[i].value)
  }

  /** An f64 has eight bytes. */
  ghost predicate RoundsToEightBytes(lib: Library) { forall i :: |lib.round(i)| == 8 }

  /** What comes back for an integer: above i64 a rounded float, and the 64-bit coder's image below. */
  function IntImage(lib: Library, i: int): Value {
    if IsI64(i) then Int(I64Image(i)) else FloatValue(lib.round(i))
  }

  /** The value with every integer replaced by what comes back for it. */
  function Image(lib: Library, v: Value): Value
    decreases v
  {
    match v
    case Int(i) => IntImage(lib, i)
    case Array(vs) => Array(ImageOfItems(lib, vs))
    case Object(fs) => Object(ImageOfFields(lib, fs))
    case _ => v
  }

  function ImageOfItems(lib: Library, vs: seq<Value>): seq<Value>
    decreases vs
  {
    if vs == [] then [] else [Image(lib, vs[0])] + ImageOfItems(lib, vs[1..])
  }

  function ImageOfFields(lib: Library, fs: seq<Field>): (r: seq<Field>)
    ensures |r| == |fs|
    ensures forall i :: 0 <= i < |fs| ==> r[i].key == fs[i].key
    decreases fs
  {
    if fs == [] then [] else [ImageOfEntry(lib, fs[0])] + ImageOfFields(lib, fs[1..])
  }

  function ImageOfEntry(lib: Library, f: Field): (r: Field)
    ensures r.key == f.key
    decreases f
  {
    Field(f.key, Image(lib, f.value))
  }

  /** Every integer fits i64 and is not a negative multiple of 2^32. */
  predicate Faithful(v: Value)
    decreases v
  {
    match v
    case Int(i) => IsI64(i) && I64Survives(i)
    case Array(vs) => FaithfulItems(vs)
    case Object(fs) => FaithfulFields(fs)
    case _ => true
  }

  predicate FaithfulItems(vs: seq<Value>)
    decreases vs
  {
    vs == [] || (Faithful(vs[0]) && FaithfulItems(vs[1..]))
  }

  predicate FaithfulFields(fs: seq<Field>)
    decreases fs
  {
    fs == [] || (Faithful(fs[0].value) && FaithfulFields(fs[1..]))
  }

  /** Nothing is changed by the trip exactly when every integer is one the coder keeps. */
  lemma {:induction false} ImageIsIdentityIff(lib: Library, v: Value)
    ensures Image(lib, v) == v <==> Faithful(v)
    decreases v, 1
  {
    match v
    case Array(vs) => ImageOfItemsIsIdentityIff(lib, vs);
    case Object(fs) => ImageOfFieldsIsIdentityIff(lib, fs);
    case _ =>
  }

  lemma {:induction false} ImageOfItemsIsIdentityIff(lib: Library, vs: seq<Value>)
    ensures ImageOfItems(lib, vs) == vs <==> FaithfulItems(vs)
    decreases vs, 0
  {
    if vs != [] {
      ImageIsIdentityIff(lib, vs[0]);
      ImageOfItemsIsIdentityIff(lib, vs[1..]);
      HeadAndTail(Image(lib, vs[0]), ImageOfItems(lib, vs[1..]), vs);
    }
  }

  lemma {:induction false} ImageOfFieldsIsIdentityIff(lib: Library, fs: seq<Field>)
    ensures ImageOfFields(lib, fs) == fs <==> FaithfulFields(fs)
    decreases fs, 0
  {
    if fs != [] {
      ImageIsIdentityIff(lib, fs[0].value);
      ImageOfFieldsIsIdentityIff(lib, fs[1..]);
      HeadAndTail(ImageOfEntry(lib, fs[0]), ImageOfFields(lib, fs[1..]), fs);
    }
  }

  lemma HeadAndTail<T>(head: T, tail: seq<T>, s: seq<T>)
    requires s != []
    ensures [head] + tail == s <==> head == s[0] && tail == s[1..]
  {
    assert ([head] + tail)[0] == head && ([head] + tail)[1..] == tail;
    assert s == [s[0]] + s[1..];
  }

  // ---------------------------------------------------------------- the two string tables

  /** The encoder's map and the decoder's list hold the same texts at the same indices. */
  ghost predicate Match(t: StringTable, table: seq<Bytes>) {
    && (forall i :: 0 <= i < |table| ==> table[i] in t && t[table[i]] == i)
    && (forall s :: s in t ==> t[s] < |table| && table[t[s]] == s)
  }

  lemma MatchSize(t: StringTable, table: seq<Bytes>)
    requires Match(t, table)
    ensures |t| == |table|
  {
    var keys := set i | 0 <= i < |table| :: table[i];
    assert t.Keys == keys;
    CountDistinct(table);
    assert keys == set s | s in table;
  }

  lemma {:induction false} CountDistinct(table: seq<Bytes>)
    requires forall i, j :: 0 <= i < j < |table| ==> table[i] != table[j]
    ensures |set s | s in table| == |table|
  {
    if table != [] {
      var n := |table| - 1;
      CountDistinct(table[..n]);
      assert (set s | s in table) == (set s | s in table[..n]) + {table[n]};
    } else {
      assert (set s | s in table) == {};
    }
  }

  lemma MatchGrows(t: StringTable, table: seq<Bytes>, s: Bytes)
    requires Match(t, table) && s !in t
    ensures Match(t[s := |t|], table + [s])
  {
    MatchSize(t, table);
  }

  /** Decoder tables: every entry passed the byte limit when it was added. */
  predicate Bounded(table: seq<Bytes>, lim: Limits) {
    forall i :: 0 <= i < |table| ==> |table[i]| <= lim.value
  }

  /** A state of the decoder in lock-step with the encoder's table, with room for more indices. */
  ghost predicate InStep(t: StringTable, st: State, lim: Limits, texts: nat) {
    Match(t, st.table) && Bounded(st.table, lim) && |st.table| + texts <= TWO_32
  }

  /** What decoding something of cost c leaves behind. */
  ghost predicate Consumed(st: State, after: State, rest: Bytes, c: Cost, t: StringTable, lim: Limits, texts: nat) {
    && after.input == rest
    && after.nodes == st.nodes - c.nodes
    && after.bytes == st.bytes - c.total
    && InStep(t, after, lim, texts)
  }

  // ---------------------------------------------------------------- one node at a time

  lemma LengthRoundTrip(n: nat, rest: Bytes)
    requires n < TWO_32
    ensures Take7(Length(n) + rest) == Read(rest, Some(n))
  {
    assert n % TWO_32 == n;
    SevenBitRoundTrip(n, rest);
  }

  lemma TagStep(lib: Library, lim: Limits, depth: nat, st: State, tag: Byte, tail: Bytes)
    requires st.input == [tag] + tail
    ensures DecodeAt(lib, lim, depth, st)
            == if depth > lim.depth || st.nodes == 0 then Step(st, None)
               else DecodeTag(lib, lim, depth, tag, State(tail, st.table, st.nodes - 1, st.bytes))
  {
    assert st.input[1..] == tail;
  }

  lemma ArrayStep(lib: Library, lim: Limits, depth: nat, st: State, count: nat, tail: Bytes)
    requires count < TWO_32 && st.input == [9] + Length(count) + tail
    ensures var r := DecodeAt(lib, lim, depth, st);
            if depth > lim.depth || st.nodes == 0 || count > lim.items then r.out == None
            else
              var q := DecodeItems(lib, lim, depth, count, State(tail, st.table, st.nodes - 1, st.bytes), []);
              r == Step(q.st, if q.out.Some? then Some(Array(q.out.value)) else None)
  {
    assert st.input == [9] + (Length(count) + tail);
    TagStep(lib, lim, depth, st, 9, Length(count) + tail);
    LengthRoundTrip(count, tail);
  }

  lemma ObjectStep(lib: Library, lim: Limits, depth: nat, st: State, count: nat, tail: Bytes)
    requires count < TWO_32 && st.input == [8] + Length(count) + tail
    ensures var r := DecodeAt(lib, lim, depth, st);
            if depth > lim.depth || st.nodes == 0 || count > lim.items then r.out == None
            else
              var q := DecodeFields(lib, lim, depth, count, State(tail, st.table, st.nodes - 1, st.bytes), []);
              r == Step(q.st, if q.out.Some? then Some(Object(MapOf(q.out.value))) else None)
  {
    assert st.input == [8] + (Length(count) + tail);
    TagStep(lib, lim, depth, st, 8, Length(count) + tail);
    LengthRoundTrip(count, tail);
  }

  lemma ChargedStep(lim: Limits, st: State, data: Bytes, rest: Bytes)
    requires |data| < TWO_32 && st.input == Length(|data|) + data + rest
    ensures var r := TakeCharged(lim, st);
            if |data| <= lim.value && |data| <= st.bytes
            then r == Step(State(rest, st.table, st.nodes, st.bytes - |data|), Some(data))
            else r.out == None
  {
    assert st.input == Length(|data|) + (data + rest);
    LengthRoundTrip(|data|, data + rest);
    assert (data + rest)[..|data|] == data && (data + rest)[|data|..] == rest;
  }

  lemma BackReferenceRoundTrip(st: State, index: nat, rest: Bytes)
    requires index < |st.table| && index < TWO_32 && st.input == Length(index) + rest
    ensures var r := BackReferenceStep(st);
            if |st.table[index]| <= st.bytes
            then r == Step(State(rest, st.table, st.nodes, st.bytes - |st.table[index]|),
                           Some(Text(st.table[index])))
            else r.out == None
  {
    LengthRoundTrip(index, rest);
  }

  lemma NewTextRoundTrip(lim: Limits, st: State, s: Bytes, rest: Bytes)
    requires Utf8.Valid(s) && |s| < TWO_32 && st.input == Length(|s|) + s + rest
    ensures var r := TextStep(lim, st);
            if |s| <= lim.value && |s| <= st.bytes
            then r == Step(State(rest, st.table + [s], st.nodes, st.bytes - |s|), Some(Text(s)))
            else r.out == None
  {
    hide Utf8.Valid, Utf8.Lossy, TakeCharged, Length;
    ChargedStep(lim, st, s, rest);
    Utf8.LossyIsIdentityOnValid(s);
  }

  /** A text: written out once, referred back to afterwards, charged in full both times. */
  lemma TextRoundTrip(lib: Library, lim: Limits, s: Bytes, t: StringTable, st: State, rest: Bytes,
                      depth: nat, texts: nat)
    requires Utf8.Valid(s) && |s| < TWO_32
    requires InStep(t, st, lim, texts + 1)
    requires st.input == EncodeText(s, t).bytes + rest
    ensures var r := DecodeAt(lib, lim, depth, st);
            if Fits(TextCost(s), lim, depth, st.nodes, st.bytes)
            then r.out == Some(Text(s))
                 && Consumed(st, r.st, rest, TextCost(s), EncodeText(s, t).table, lim, texts)
            else r.out == None
  {
    if s in t {
      KnownTextRoundTrip(lib, lim, s, t, st, rest, depth, texts);
    } else {
      FreshTextRoundTrip(lib, lim, s, t, st, rest, depth, texts);
    }
  }

  lemma KnownTextRoundTrip(lib: Library, lim: Limits, s: Bytes, t: StringTable, st: State, rest: Bytes,
                           depth: nat, texts: nat)
    requires s in t && InStep(t, st, lim, texts + 1)
    requires st.input == [99] + Length(t[s]) + rest
    ensures var r := DecodeAt(lib, lim, depth, st);
            if Fits(TextCost(s), lim, depth, st.nodes, st.bytes)
            then r.out == Some(Text(s)) && Consumed(st, r.st, rest, TextCost(s), t, lim, texts)
            else r.out == None
  {
    var tail := Length(t[s]) + rest;
    assert st.input == [99] + tail;
    TagStep(lib, lim, depth, st, 99, tail);
    assert st.table[t[s]] == s && |s| <= lim.value;
    if depth <= lim.depth && st.nodes > 0 {
      BackReferenceRoundTrip(State(tail, st.table, st.nodes - 1, st.bytes), t[s], rest);
    }
  }

  lemma FreshTextRoundTrip(lib: Library, lim: Limits, s: Bytes, t: StringTable, st: State, rest: Bytes,
                           depth: nat, texts: nat)
    requires Utf8.Valid(s) && |s| < TWO_32 && s !in t && InStep(t, st, lim, texts + 1)
    requires st.input == [5] + Length(|s|) + s + rest
    ensures var r := DecodeAt(lib, lim, depth, st);
            if Fits(TextCost(s), lim, depth, st.nodes, st.bytes)
            then r.out == Some(Text(s)) && Consumed(st, r.st, rest, TextCost(s), t[s := |t|], lim, texts)
            else r.out == None
  {
    hide Length, Match, TextStep, Utf8.Valid, IntStep, FloatStep, BinaryStep, BackReferenceStep, DecodeItems,
         DecodeFields;
    var tail := Length(|s|) + s + rest;
    assert st.input == [5] + tail;
    TagStep(lib, lim, depth, st, 5, tail);
    if depth <= lim.depth && st.nodes > 0 {
      NewTextRoundTrip(lim, State(tail, st.table, st.nodes - 1, st.bytes), s, rest);
      MatchGrows(t, st.table, s);
    }
  }

  lemma EightBytes(bits: Bytes, rest: Bytes)
    requires |bits| == 8
    ensures TakeBytes(bits + rest, 8) == Read(rest, Some(bits))
  {
    assert (bits + rest)[..8] == bits && (bits + rest)[8..] == rest;
  }

  lemma IntRoundTrip(lib: Library, lim: Limits, i: int, st: State, rest: Bytes, depth: nat)
    requires RoundsToEightBytes(lib) && st.input == EncodeInt(lib, i) + rest
    ensures var r := DecodeAt(lib, lim, depth, st);
            if depth <= lim.depth && 1 <= st.nodes
            then r == Step(State(rest, st.table, st.nodes - 1, st.bytes), Some(IntImage(lib, i)))
            else r.out == None
  {
    hide Finite, I32Bytes, I64Bytes, TakeI32, TakeI64, DecodeItems, DecodeFields;
    if IsI32(i) {
      assert st.input == [1] + (I32Bytes(i) + rest);
      TagStep(lib, lim, depth, st, 1, I32Bytes(i) + rest);
      I32RoundTrip(i, rest);
    } else if IsI64(i) {
      assert st.input == [2] + (I64Bytes(i) + rest);
      TagStep(lib, lim, depth, st, 2, I64Bytes(i) + rest);
      I64RoundTrip(i, rest);
    } else {
      assert st.input == [4] + (lib.round(i) + rest);
      TagStep(lib, lim, depth, st, 4, lib.round(i) + rest);
      EightBytes(lib.round(i), rest);
    }
  }

  lemma LeafRoundTrip(lib: Library, lim: Limits, v: Value, t: StringTable, st: State, rest: Bytes, depth: nat)
    requires WellFormed(v) && RoundsToEightBytes(lib) && (v.Null? || v.Bool? || v.Int? || v.Float?)
    requires st.input == Encode(lib, v, t).bytes + rest
    ensures var r := DecodeAt(lib, lim, depth, st);
            if depth <= lim.depth && 1 <= st.nodes
            then r == Step(State(rest, st.table, st.nodes - 1, st.bytes), Some(Image(lib, v)))
            else r.out == None
  {
    var tail := st.input[1..];
    match v
    case Null => assert tail == rest;
    case Bool(b) => assert tail[1..] == rest;
    case Int(i) => IntRoundTrip(lib, lim, i, st, rest, depth);
    case Float(bits) =>
      assert tail == bits + rest;
      EightBytes(bits, rest);
  }

  // ---------------------------------------------------------------- collections

  lemma {:induction false} ValueRoundTrip(lib: Library, lim: Limits, v: Value, t: StringTable, st: State,
                                          rest: Bytes, depth: nat, texts: nat)
    requires WellFormed(v) && Measurable(v) && RoundsToEightBytes(lib)
    requires InStep(t, st, lim, texts + CostOf(v).nodes)
    requires st.input == Encode(lib, v, t).bytes + rest
    ensures var r := DecodeAt(lib, lim, depth, st);
            if Fits(CostOf(v), lim, depth, st.nodes, st.bytes)
            then r.out == Some(Image(lib, v))
                 && Consumed(st, r.st, rest, CostOf(v), Encode(lib, v, t).table, lim, texts)
            else r.out == None
    decreases v, 2
  {
    match v
    case Text(s) => TextRoundTrip(lib, lim, s, t, st, rest, depth, texts);
    case Array(vs) => ArrayRoundTrip(lib, lim, vs, t, st, rest, depth, texts);
    case Object(fs) =>
      ObjectRoundTrip(lib, lim, fs, t, st, rest, depth, texts);
      MapOfSorted(ImageOfFields(lib, fs));
    case _ => LeafRoundTrip(lib, lim, v, t, st, rest, depth);
  }

  lemma {:induction false} ArrayRoundTrip(lib: Library, lim: Limits, vs: seq<Value>, t: StringTable, st: State,
                                          rest: Bytes, depth: nat, texts: nat)
    requires WellFormedItems(vs) && RoundsToEightBytes(lib) && MeasurableItems(vs) && |vs| < TWO_32
    requires InStep(t, st, lim, texts + CostOf(Array(vs)).nodes)
    requires st.input == Encode(lib, Array(vs), t).bytes + rest
    ensures var r := DecodeAt(lib, lim, depth, st);
            if Fits(CostOf(Array(vs)), lim, depth, st.nodes, st.bytes)
            then r.out == Some(Array(ImageOfItems(lib, vs)))
                 && Consumed(st, r.st, rest, CostOf(Array(vs)), Encode(lib, Array(vs), t).table, lim, texts)
            else r.out == None
    decreases vs, 1
  {
    hide DecodeAt, DecodeItems, EncodeItems, WellFormedItems, MeasurableItems, Length;
    var e := EncodeItems(lib, vs, t);
    assert st.input == [9] + Length(|vs|) + (e.bytes + rest);
    ArrayStep(lib, lim, depth, st, |vs|, e.bytes + rest);
    if depth <= lim.depth && st.nodes > 0 && |vs| <= lim.items {
      var s := State(e.bytes + rest, st.table, st.nodes - 1, st.bytes);
      ItemsRoundTrip(lib, lim, vs, t, s, rest, depth, texts, []);
      assert [] + ImageOfItems(lib, vs) == ImageOfItems(lib, vs);
    }
  }

  lemma {:induction false} ObjectRoundTrip(lib: Library, lim: Limits, fs: seq<Field>, t: StringTable, st: State,
                                           rest: Bytes, depth: nat, texts: nat)
    requires WellFormedFields(fs) && RoundsToEightBytes(lib) && MeasurableFields(fs) && |fs| < TWO_32
    requires InStep(t, st, lim, texts + CostOf(Object(fs)).nodes)
    requires st.input == Encode(lib, Object(fs), t).bytes + rest
    ensures var r := DecodeAt(lib, lim, depth, st);
            if Fits(CostOf(Object(fs)), lim, depth, st.nodes, st.bytes)
            then r.out == Some(Object(MapOf(ImageOfFields(lib, fs))))
                 && Consumed(st, r.st, rest, CostOf(Object(fs)), Encode(lib, Object(fs), t).table, lim, texts)
            else r.out == None
    decreases fs, 2
  {
    hide DecodeAt, DecodeFields, EncodeFields, WellFormedFields, MeasurableFields, Length, MapOf;
    var e := EncodeFields(lib, fs, t);
    assert st.input == [8] + Length(|fs|) + (e.bytes + rest);
    ObjectStep(lib, lim, depth, st, |fs|, e.bytes + rest);
    if depth <= lim.depth && st.nodes > 0 && |fs| <= lim.items {
      var s := State(e.bytes + rest, st.table, st.nodes - 1, st.bytes);
      FieldsRoundTrip(lib, lim, fs, t, s, rest, depth, texts, []);
      assert [] + ImageOfFields(lib, fs) == ImageOfFields(lib, fs);
    }
  }

  lemma {:induction false} ItemsRoundTrip(lib: Library, lim: Limits, vs: seq<Value>, t: StringTable, st: State,
                                          rest: Bytes, depth: nat, texts: nat, acc: seq<Value>)
    requires WellFormedItems(vs) && RoundsToEightBytes(lib) && MeasurableItems(vs)
    requires InStep(t, st, lim, texts + CostOfItems(vs).nodes)
    requires st.input == EncodeItems(lib, vs, t).bytes + rest
    ensures var r := DecodeItems(lib, lim, depth, |vs|, st, acc);
            if vs == [] || Fits(CostOfItems(vs), lim, depth + 1, st.nodes, st.bytes)
            then r.out == Some(acc + ImageOfItems(lib, vs))
                 && Consumed(st, r.st, rest, CostOfItems(vs), EncodeItems(lib, vs, t).table, lim, texts)
            else r.out == None
    decreases vs, 0
  {
    hide DecodeAt, CostOf, Encode, Image, WellFormed, Measurable;
    if vs == [] {
      assert acc + ImageOfItems(lib, vs) == acc && st.input == rest;
    } else {
      var head, c := Encode(lib, vs[0], t), CostOf(vs[0]);
      var tail, d := EncodeItems(lib, vs[1..], head.table), CostOfItems(vs[1..]);
      assert st.input == head.bytes + (tail.bytes + rest);
      ValueRoundTrip(lib, lim, vs[0], t, st, tail.bytes + rest, depth + 1, texts + d.nodes);
      if Fits(c, lim, depth + 1, st.nodes, st.bytes) {
        var r, v := DecodeAt(lib, lim, depth + 1, st), Image(lib, vs[0]);
        ItemsRoundTrip(lib, lim, vs[1..], head.table, r.st, rest, depth, texts, acc + [v]);
        FitsJoin(c, d, lim, depth + 1, st.nodes, st.bytes);
        assert acc + [v] + ImageOfItems(lib, vs[1..]) == acc + ImageOfItems(lib, vs);
      }
    }
  }

  lemma {:induction false} FieldsRoundTrip(lib: Library, lim: Limits, fs: seq<Field>, t: StringTable, st: State,
                                           rest: Bytes, depth: nat, texts: nat, acc: seq<Field>)
    requires WellFormedFields(fs) && RoundsToEightBytes(lib) && MeasurableFields(fs)
    requires InStep(t, st, lim, texts + CostOfFields(fs).nodes)
    requires st.input == EncodeFields(lib, fs, t).bytes + rest
    ensures var r := DecodeFields(lib, lim, depth, |fs|, st, acc);
            if fs == [] || Fits(CostOfFields(fs), lim, depth + 1, st.nodes, st.bytes)
            then r.out == Some(acc + ImageOfFields(lib, fs))
                 && Consumed(st, r.st, rest, CostOfFields(fs), EncodeFields(lib, fs, t).table, lim, texts)
            else r.out == None
    decreases fs, 1
  {
    hide DecodeEntry, CostOfEntry, EncodeEntry, ImageOfEntry, WellFormed, Measurable, Utf8.Valid;
    if fs == [] {
      assert acc + ImageOfFields(lib, fs) == acc && st.input == rest;
    } else {
      var f, c, d := fs[0], CostOfEntry(fs[0]), CostOfFields(fs[1..]);
      var e := EncodeEntry(lib, f, t);
      var tail := EncodeFields(lib, fs[1..], e.table);
      assert st.input == e.bytes + (tail.bytes + rest);
      EntryRoundTrip(lib, lim, fs, t, st, tail.bytes + rest, depth + 1, texts + d.nodes);
      FitsJoin(c, d, lim, depth + 1, st.nodes, st.bytes);
      if Fits(c, lim, depth + 1, st.nodes, st.bytes) {
        var s, g := DecodeEntry(lib, lim, depth + 1, st).st, ImageOfEntry(lib, f);
        FieldsRoundTrip(lib, lim, fs[1..], e.table, s, rest, depth, texts, acc + [g]);
        assert acc + [g] + ImageOfFields(lib, fs[1..]) == acc + ImageOfFields(lib, fs);
      }
    }
  }

  /** One key followed by its value. */
  lemma {:induction false} EntryRoundTrip(lib: Library, lim: Limits, fs: seq<Field>, t: StringTable, st: State,
                                          rest: Bytes, depth: nat, texts: nat)
    requires fs != [] && WellFormedFields(fs) && RoundsToEightBytes(lib) && MeasurableFields(fs)
    requires InStep(t, st, lim, texts + CostOfEntry(fs[0]).nodes)
    requires st.input == EncodeEntry(lib, fs[0], t).bytes + rest
    ensures var r := DecodeEntry(lib, lim, depth, st);
            if Fits(CostOfEntry(fs[0]), lim, depth, st.nodes, st.bytes)
            then r.out == Some(ImageOfEntry(lib, fs[0]))
                 && Consumed(st, r.st, rest, CostOfEntry(fs[0]), EncodeEntry(lib, fs[0], t).table, lim, texts)
            else r.out == None
    decreases fs, 0
  {
    var f := fs[0];
    var key, k, c := EncodeText(f.key, t), TextCost(f.key), CostOf(f.value);
    var tail := Encode(lib, f.value, key.table).bytes + rest;
    assert st.input == key.bytes + tail;
    TextRoundTrip(lib, lim, f.key, t, st, tail, depth, texts + c.nodes);
    FitsJoin(k, c, lim, depth, st.nodes, st.bytes);
    if Fits(k, lim, depth, st.nodes, st.bytes) {
      var s := DecodeAt(lib, lim, depth, st).st;
      ValueRoundTrip(lib, lim, f.value, key.table, s, rest, depth, texts);
    }
  }

  lemma {:induction false} InsertLast(acc: seq<Field>, f: Field)
    requires forall i :: 0 <= i < |acc| ==> Less(acc[i].key, f.key)
    ensures Insert(acc, f.key, f.value) == acc + [f]
  {
    if acc != [] {
      LessTrichotomy(acc[0].key, f.key);
      InsertLast(acc[1..], f);
    }
  }

  /** Inserting entries in ascending order of key rebuilds the map. */
  lemma {:induction false} MapOfSorted(fs: seq<Field>)
    requires SortedKeys(fs)
    ensures MapOf(fs) == fs
  {
    if fs != [] {
      var n := |fs| - 1;
      MapOfSorted(fs[..n]);
      InsertLast(fs[..n], fs[n]);
      assert fs[..n] + [fs[n]] == fs;
    }
  }

  // ---------------------------------------------------------------- whole messages

  lemma EmptyTablesInStep(lim: Limits, data: Bytes, texts: nat)
    requires texts <= TWO_32
    ensures InStep(map[], Fresh(lim, data), lim, texts)
  {
  }

  /** bon::decode_with_limits of bon::encode, whatever follows: the value comes back, with its integers'
      images, exactly when its cost fits the limits. */
  lemma DecodeOfEncode(lib: Library, lim: Limits, v: Value, suffix: Bytes)
    requires WellFormed(v) && Measurable(v) && RoundsToEightBytes(lib) && CostOf(v).nodes <= TWO_32
    ensures Decode(lib, lim, Encode(lib, v, map[]).bytes + suffix)
            == if Fits(CostOf(v), lim, 0, lim.nodes, lim.total) then Some(Image(lib, v)) else None
  {
    var data := Encode(lib, v, map[]).bytes + suffix;
    EmptyTablesInStep(lim, data, CostOf(v).nodes);
    ValueRoundTrip(lib, lim, v, map[], Fresh(lim, data), suffix, 0, 0);
  }

  /** The value itself comes back exactly when it fits and every integer is one the coder keeps. */
  lemma RoundTripIff(lib: Library, lim: Limits, v: Value, suffix: Bytes)
    requires WellFormed(v) && Measurable(v) && RoundsToEightBytes(lib) && CostOf(v).nodes <= TWO_32
    ensures Decode(lib, lim, Encode(lib, v, map[]).bytes + suffix) == Some(v)
            <==> Fits(CostOf(v), lim, 0, lim.nodes, lim.total) && Faithful(v)
  {
    DecodeOfEncode(lib, lim, v, suffix);
    ImageIsIdentityIff(lib, v);
  }

  /** The two sets of limits in use, in numbers. */
  lemma DecodingInNumbers(lib: Library, v: Value, suffix: Bytes)
    requires WellFormed(v) && Measurable(v) && RoundsToEightBytes(lib) && CostOf(v).nodes <= TWO_32
    ensures var c, data := CostOf(v), Encode(lib, v, map[]).bytes + suffix;
            && Decode(lib, DEFAULT_LIMITS, data)
               == (if && c.depth <= 128 && c.nodes <= 2_000_000 && c.widest <= 1_000_000
                      && c.longest <= 67_108_864 && c.total <= 268_435_456
                   then Some(Image(lib, v)) else None)
            && Decode(lib, PROXY_LIMITS, data)
               == (if && c.depth <= 64 && c.nodes <= 200_000 && c.widest <= 100_000
                      && c.longest <= 16_777_216 && c.total <= 33_554_432
                   then Some(Image(lib, v)) else None)
  {
    hide Encode, Image, CostOf, WellFormed, Measurable;
    DecodeOfEncode(lib, DEFAULT_LIMITS, v, suffix);
    DecodeOfEncode(lib, PROXY_LIMITS, v, suffix);
  }

  /** An integer the 64-bit coder changes: -2^32 comes back as -2^33. */
  lemma NegativeMultipleIsChanged(lib: Library)
    requires RoundsToEightBytes(lib)
    ensures Decode(lib, DEFAULT_LIMITS, Encode(lib, Int(-TWO_32), map[]).bytes) == Some(Int(-2 * TWO_32))
  {
    var data := Encode(lib, Int(-TWO_32), map[]).bytes;
    assert data + [] == data;
    DecodeOfEncode(lib, DEFAULT_LIMITS, Int(-TWO_32), []);
  }
}
