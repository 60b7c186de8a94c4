// The tagged BON codec of src/bon.rs as functions: what the encoder appends and how its
// string table grows, and what the decoder does to its whole state.
module Bon {
  import opened Bytes
  import opened BonWire
  import Base64
  import Utf8

  // ---------------------------------------------------------------- values

  /** A serde_json value; texts are UTF-8 bytes and a float is its eight little-endian bytes. */
  datatype Value =
    | Null
    | Bool(flag: bool)
    | Int(number: int)
    | Float(bits: Bytes)
    | Text(text: Bytes)
    | Array(items: seq<Value>)
    | Object(fields: seq<Field>)

  /** One entry of a BTreeMap<String, Value>; a map lists its entries by ascending key. */
  datatype Field = Field(key: Bytes, value: Value)

  const U64_MAX: int := 0xffff_ffff_ffff_ffff

  /** The little-endian f64 is neither infinite nor a NaN: not all eleven exponent bits are set. */
  predicate Finite(bits: Bytes) {
    |bits| == 8 && !(bits[7] % 128 == 127 && bits[6] >= 240)
  }

  predicate SortedKeys(fs: seq<Field>) {
    forall i, j :: 0 <= i < j < |fs| ==> Less(fs[i].key, fs[j].key)
  }

  /** What the Rust types guarantee of every value. */
  predicate WellFormed(v: Value)
    decreases v
  {
    match v
    case Null => true
    case Bool(_) => true
    case Int(i) => I64_MIN <= i <= U64_MAX
    case Float(bits) => Finite(bits)
    case Text(s) => Utf8.Valid(s)
    case Array(vs) => WellFormedItems(vs)
    case Object(fs) => SortedKeys(fs) && WellFormedFields(fs)
  }

  predicate WellFormedItems(vs: seq<Value>)
    decreases vs
  {
    forall i :: 0 <= i < |vs| ==> WellFormed(vs[i])
  }

  predicate WellFormedFields(fs: seq<Field>)
    decreases fs
  {
    forall i :: 0 <= i < |fs| ==> Utf8.Valid(fs[i].key) && WellFormed(fs[i].value)
  }

  /** BTreeMap::insert on the sorted entries. */
  function Insert(fs: seq<Field>, key: Bytes, value: Value): seq<Field> {
    if fs == [] || Less(key, fs[0].key) then [Field(key, value)] + fs
    else if key == fs[0].key then [Field(key, value)] + fs[1..]
    else [fs[0]] + Insert(fs[1..], key, value)
  }

  /** The map after inserting the entries from first to last. */
  function MapOf(entries: seq<Field>): seq<Field> {
    if entries == [] then []
    else
      var last := entries[|entries| - 1];
      Insert(MapOf(entries[..|entries| - 1]), last.key, last.value)
  }

  function Lookup(fs: seq<Field>, key: Bytes): Option<Value> {
    if fs == [] then None
    else if fs[0].key == key then Some(fs[0].value)
    else Lookup(fs[1..], key)
  }

  // ---------------------------------------------------------------- what is outside this code

  /** Library behaviour taken as given: the JSON text of a value used as a key, the widening of
      an f32 and the rounding of a u64 to f64 bytes. */
  datatype Library = Library(
    display: Value -> Bytes,
    widen: Bytes -> Bytes,
    round: int -> Bytes)

  // ---------------------------------------------------------------- encoding

  type StringTable = map<Bytes, nat>

  /** The bytes one call appends and the string table it leaves. */
  datatype Encoded = Encoded(bytes: Bytes, table: StringTable)

  function EncodeText(s: Bytes, t: StringTable): Encoded {
    if s in t then Encoded([99] + Length(t[s]), t)
    else Encoded([5] + Length(|s|) + s, t[s := |t|])
  }

  function EncodeInt(lib: Library, i: int): Bytes {
    if IsI32(i) then [1] + I32Bytes(i)
    else if IsI64(i) then [2] + I64Bytes(i)
    else [4] + lib.round(i)
  }

  function Encode(lib: Library, v: Value, t: StringTable): Encoded
    decreases v
  {
    match v
    case Null => Encoded([0], t)
    case Bool(b) => Encoded([6, if b then 1 else 0], t)
    case Int(i) => Encoded(EncodeInt(lib, i), t)
    case Float(bits) => Encoded([4] + bits, t)
    case Text(s) => EncodeText(s, t)
    case Array(vs) =>
      var e := EncodeItems(lib, vs, t);
      Encoded([9] + Length(|vs|) + e.bytes, e.table)
    case Object(fs) =>
      var e := EncodeFields(lib, fs, t);
      Encoded([8] + Length(|fs|) + e.bytes, e.table)
  }

  function EncodeItems(lib: Library, vs: seq<Value>, t: StringTable): Encoded
    decreases vs
  {
    if vs == [] then Encoded([], t)
    else
      var head := Encode(lib, vs[0], t);
      var tail := EncodeItems(lib, vs[1..], head.table);
      Encoded(head.bytes + tail.bytes, tail.table)
  }

  function EncodeFields(lib: Library, fs: seq<Field>, t: StringTable): Encoded
    decreases fs
  {
    if fs == [] then Encoded([], t)
    else
      var head := EncodeEntry(lib, fs[0], t);
      var tail := EncodeFields(lib, fs[1..], head.table);
      Encoded(head.bytes + tail.bytes, tail.table)
  }

  function EncodeEntry(lib: Library, f: Field, t: StringTable): Encoded
    decreases f
  {
    var key := EncodeText(f.key, t);
    var value := Encode(lib, f.value, key.table);
    Encoded(key.bytes + value.bytes, value.table)
  }

  function EncodeBinary(data: Bytes): Bytes { [7] + Length(|data|) + data }

  // ---------------------------------------------------------------- decoding

  datatype Limits = Limits(depth: nat, items: nat, value: nat, nodes: nat, total: nat)

  const DEFAULT_LIMITS := Limits(128, 1_000_000, 64 * 1024 * 1024, 2_000_000, 256 * 1024 * 1024)
  const PROXY_LIMITS := Limits(64, 100_000, 16 * 1024 * 1024, 200_000, 32 * 1024 * 1024)

  /** The decoder: unread input, string table, nodes and value bytes still allowed. */
  datatype State = State(input: Bytes, table: seq<Bytes>, nodes: nat, bytes: nat)

  datatype Step<+T> = Step(st: State, out: Option<T>)

  function FloatValue(bits: Bytes): Value { if Finite(bits) then Float(bits) else Null }

  function IntStep(st: State, r: Read<int>): Step<Value> {
    Step(st.(input := r.rest), if r.out.Some? then Some(Int(r.out.value)) else None)
  }

  function FloatStep(st: State, r: Read<Bytes>): Step<Value> {
    Step(st.(input := r.rest), if r.out.Some? then Some(FloatValue(r.out.value)) else None)
  }

  function Widened(lib: Library, r: Read<Bytes>): Read<Bytes> {
    r.(out := if r.out.Some? then Some(lib.widen(r.out.value)) else None)
  }

  function BoolStep(st: State): Step<Value> {
    if st.input == [] then Step(st, None)
    else Step(st.(input := st.input[1..]), Some(Bool(st.input[0] == 1)))
  }

  function TakeBytes(input: Bytes, n: nat): Read<Bytes> {
    if |input| < n then Read(input, None) else Read(input[n..], Some(input[..n]))
  }

  /** A length prefix that passes both byte limits is charged before its bytes are read. */
  function TakeCharged(lim: Limits, st: State): Step<Bytes> {
    var n := Take7(st.input);
    var s := st.(input := n.rest);
    if n.out.None? || n.out.value > lim.value || n.out.value > s.bytes then Step(s, None)
    else
      var r := TakeBytes(s.input, n.out.value);
      Step(s.(input := r.rest, bytes := s.bytes - n.out.value), r.out)
  }

  function TextStep(lim: Limits, st: State): Step<Value> {
    var r := TakeCharged(lim, st);
    if r.out.None? then Step(r.st, None)
    else
      var s := Utf8.Lossy(r.out.value);
      Step(r.st.(table := r.st.table + [s]), Some(Text(s)))
  }

  function BinaryStep(lim: Limits, st: State): Step<Value> {
    var r := TakeCharged(lim, st);
    Step(r.st, if r.out.Some? then Some(Text(Base64.Encode(r.out.value))) else None)
  }

  function BackReferenceStep(st: State): Step<Value> {
    var n := Take7(st.input);
    var s := st.(input := n.rest);
    if n.out.None? || n.out.value >= |s.table| || |s.table[n.out.value]| > s.bytes then Step(s, None)
    else
      var text := s.table[n.out.value];
      Step(s.(bytes := s.bytes - |text|), Some(Text(text)))
  }

  function KeyOf(lib: Library, v: Value): Bytes {
    if v.Text? then v.text else lib.display(v)
  }

  function DecodeAt(lib: Library, lim: Limits, depth: nat, st: State): (r: Step<Value>)
    ensures r.st.nodes <= st.nodes
    decreases st.nodes, 0, 0
  {
    if depth > lim.depth || st.nodes == 0 then Step(st, None)
    else if st.input == [] then Step(st.(nodes := st.nodes - 1), None)
    else DecodeTag(lib, lim, depth, st.input[0], st.(input := st.input[1..], nodes := st.nodes - 1))
  }

  /** The rest of one node, whose tag has been read and which has been counted. */
  function DecodeTag(lib: Library, lim: Limits, depth: nat, tag: Byte, st: State): (r: Step<Value>)
    ensures r.st.nodes <= st.nodes
    decreases st.nodes, 2, 0
  {
    match tag
    case 0 => Step(st, Some(Null))
    case 1 => IntStep(st, TakeI32(st.input))
    case 2 => IntStep(st, TakeI64(st.input))
    case 3 => FloatStep(st, Widened(lib, TakeBytes(st.input, 4)))
    case 4 => FloatStep(st, TakeBytes(st.input, 8))
    case 5 => TextStep(lim, st)
    case 6 => BoolStep(st)
    case 7 => BinaryStep(lim, st)
    case 8 =>
      var n := Take7(st.input);
      var s := st.(input := n.rest);
      if n.out.None? || n.out.value > lim.items then Step(s, None)
      else
        var r := DecodeFields(lib, lim, depth, n.out.value, s, []);
        Step(r.st, if r.out.Some? then Some(Object(MapOf(r.out.value))) else None)
    case 9 =>
      var n := Take7(st.input);
      var s := st.(input := n.rest);
      if n.out.None? || n.out.value > lim.items then Step(s, None)
      else
        var r := DecodeItems(lib, lim, depth, n.out.value, s, []);
        Step(r.st, if r.out.Some? then Some(Array(r.out.value)) else None)
    case 10 => IntStep(st, TakeI64(st.input))
    case 99 => BackReferenceStep(st)
    case _ => Step(st, None)
  }

  /** The array loop with `count` items to go. */
  function DecodeItems(lib: Library, lim: Limits, depth: nat, count: nat, st: State, acc: seq<Value>)
    : (r: Step<seq<Value>>)
    ensures r.st.nodes <= st.nodes
    decreases st.nodes, 1, count
  {
    if count == 0 then Step(st, Some(acc))
    else
      var v := DecodeAt(lib, lim, depth + 1, st);
      if v.out.None? then Step(v.st, None)
      else DecodeItems(lib, lim, depth, count - 1, v.st, acc + [v.out.value])
  }

  /** The object loop with `count` entries to go, gathering them in the order read. */
  function DecodeFields(lib: Library, lim: Limits, depth: nat, count: nat, st: State, acc: seq<Field>)
    : (r: Step<seq<Field>>)
    ensures r.st.nodes <= st.nodes
    decreases st.nodes, 1, count
  {
    if count == 0 then Step(st, Some(acc))
    else
      var f := DecodeEntry(lib, lim, depth + 1, st);
      if f.out.None? then Step(f.st, None)
      else DecodeFields(lib, lim, depth, count - 1, f.st, acc + [f.out.value])
  }

  function DecodeEntry(lib: Library, lim: Limits, depth: nat, st: State): (r: Step<Field>)
    ensures r.st.nodes <= st.nodes
    decreases st.nodes, 1, 0
  {
    var k := DecodeAt(lib, lim, depth, st);
    if k.out.None? then Step(k.st, None)
    else
      var v := DecodeAt(lib, lim, depth, k.st);
      Step(v.st, if v.out.Some? then Some(Field(KeyOf(lib, k.out.value), v.out.value)) else None)
  }

  function Fresh(lim: Limits, data: Bytes): State { State(data, [], lim.nodes, lim.total) }

  /** decode_with_limits; bytes after the first value are ignored. */
  function Decode(lib: Library, lim: Limits, data: Bytes): Option<Value> {
    DecodeAt(lib, lim, 0, Fresh(lim, data)).out
  }
}
