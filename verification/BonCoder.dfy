// BonEncoder and BonDecoder of src/bon.rs: the objects whose methods update the output, the
// string tables and the remaining budgets, proved against the functions in module Bon.
module BonCoder {
  import opened Bytes
  import opened BonWire
  import opened Bon
  import Base64
  import Utf8

  class BonEncoder {
    const dw: DataWriter
    var strMap: StringTable

    constructor ()
      ensures fresh(dw) && dw.data == [] && strMap == map[]
    {
      dw := new DataWriter();
      strMap := map[];
    }

    method WriteText(s: Bytes)
      modifies this, dw
      ensures dw.data == old(dw.data) + EncodeText(s, old(strMap)).bytes
      ensures strMap == EncodeText(s, old(strMap)).table
    {
      if s in strMap {
        dw.WriteU8(99);
        dw.Write7BitInt(strMap[s]);
      } else {
        dw.WriteU8(5);
        dw.Write7BitInt(|s|);
        dw.WriteBytes(s);
        strMap := strMap[s := |strMap|];
      }
    }

    /** encode: appends the value's bytes and grows the string table by its new texts. */
    method Write(lib: Library, value: Value)
      modifies this, dw
      ensures dw.data == old(dw.data) + Encode(lib, value, old(strMap)).bytes
      ensures strMap == Encode(lib, value, old(strMap)).table
      decreases value
    {
      hide EncodeItems, EncodeFields, EncodeText, Length, I32Bytes, I64Bytes;
      match value
      case Null => dw.WriteU8(0);
      case Bool(b) =>
        dw.WriteU8(6);
        dw.WriteU8(if b then 1 else 0);
      case Int(i) =>
        if IsI32(i) {
          dw.WriteU8(1);
          dw.WriteI32(i);
        } else if IsI64(i) {
          dw.WriteU8(2);
          dw.WriteI64(i);
        } else {
          dw.WriteU8(4);
          dw.WriteBytes(lib.round(i));
        }
      case Float(bits) =>
        dw.WriteU8(4);
        dw.WriteBytes(bits);
      case Text(s) => WriteText(s);
      case Array(vs) =>
        dw.WriteU8(9);
        dw.Write7BitInt(|vs|);
        WriteItems(lib, vs);
      case Object(fs) =>
        dw.WriteU8(8);
        dw.Write7BitInt(|fs|);
        WriteFields(lib, fs);
    }

    method WriteItems(lib: Library, vs: seq<Value>)
      modifies this, dw
      ensures dw.data == old(dw.data) + EncodeItems(lib, vs, old(strMap)).bytes
      ensures strMap == EncodeItems(lib, vs, old(strMap)).table
      decreases vs
    {
      ghost var all := EncodeItems(lib, vs, strMap);
      assert vs[0..] == vs;
      for i := 0 to |vs|
        invariant dw.data + EncodeItems(lib, vs[i..], strMap).bytes == old(dw.data) + all.bytes
        invariant EncodeItems(lib, vs[i..], strMap).table == all.table
      {
        assert vs[i..][0] == vs[i] && vs[i..][1..] == vs[i + 1..];
        Write(lib, vs[i]);
      }
    }

    method WriteFields(lib: Library, fs: seq<Field>)
      modifies this, dw
      ensures dw.data == old(dw.data) + EncodeFields(lib, fs, old(strMap)).bytes
      ensures strMap == EncodeFields(lib, fs, old(strMap)).table
      decreases fs
    {
      hide Encode, EncodeText;
      ghost var all := EncodeFields(lib, fs, strMap);
      assert fs[0..] == fs;
      for i := 0 to |fs|
        invariant dw.data + EncodeFields(lib, fs[i..], strMap).bytes == old(dw.data) + all.bytes
        invariant EncodeFields(lib, fs[i..], strMap).table == all.table
      {
        assert fs[i..][0] == fs[i] && fs[i..][1..] == fs[i + 1..];
        ghost var entry := EncodeEntry(lib, fs[i], strMap);
        ghost var before := dw.data;
        WriteText(fs[i].key);
        Write(lib, fs[i].value);
        assert dw.data == before + entry.bytes && strMap == entry.table;
      }
    }

    method WriteBinary(data: Bytes)
      modifies dw
      ensures dw.data == old(dw.data) + EncodeBinary(data)
    {
      dw.WriteU8(7);
      dw.Write7BitInt(|data|);
      dw.WriteBytes(data);
    }
  }

  class BonDecoder {
    const dr: DataReader
    const limits: Limits
    var strArr: seq<Bytes>
    var nodesRemaining: nat
    var valueBytesRemaining: nat

    ghost predicate Valid() reads this, dr { dr.Valid() }

    /** The decoder's whole state as a value. */
    ghost function View(): State
      reads this, dr
      requires Valid()
    {
      State(dr.Rest(), strArr, nodesRemaining, valueBytesRemaining)
    }

    constructor (lim: Limits)
      ensures Valid() && fresh(dr) && limits == lim && View() == Fresh(lim, [])
    {
      dr := new DataReader([]);
      limits := lim;
      strArr, nodesRemaining, valueBytesRemaining := [], lim.nodes, lim.total;
    }

    method Reset(data: Bytes)
      modifies this, dr
      ensures Valid() && View() == Fresh(limits, data)
    {
      dr.Reset(data);
      strArr, nodesRemaining, valueBytesRemaining := [], limits.nodes, limits.total;
    }

    method ReadCharged() returns (r: Option<Bytes>)
      requires Valid()
      modifies this`valueBytesRemaining, dr`position
      ensures Valid() && Step(View(), r) == TakeCharged(limits, old(View()))
    {
      var len := dr.Read7BitInt();
      if len.None? || len.value > limits.value || len.value > valueBytesRemaining {
        return None;
      }
      valueBytesRemaining := valueBytesRemaining - len.value;
      r := dr.ReadBytes(len.value);
    }

    method ReadText() returns (r: Option<Value>)
      requires Valid()
      modifies this`valueBytesRemaining, this`strArr, dr`position
      ensures Valid() && Step(View(), r) == TextStep(limits, old(View()))
    {
      var bytes := ReadCharged();
      if bytes.None? {
        return None;
      }
      var s := Utf8.Lossy(bytes.value);
      strArr := strArr + [s];
      r := Some(Text(s));
    }

    method ReadBinary() returns (r: Option<Value>)
      requires Valid()
      modifies this`valueBytesRemaining, dr`position
      ensures Valid() && Step(View(), r) == BinaryStep(limits, old(View()))
    {
      var bytes := ReadCharged();
      if bytes.None? {
        return None;
      }
      var text := Base64.EncodeLoop(bytes.value);
      r := Some(Text(text));
    }

    method ReadBackReference() returns (r: Option<Value>)
      requires Valid()
      modifies this`valueBytesRemaining, dr`position
      ensures Valid() && Step(View(), r) == BackReferenceStep(old(View()))
    {
      var idx := dr.Read7BitInt();
      if idx.None? || idx.value >= |strArr| || |strArr[idx.value]| > valueBytesRemaining {
        return None;
      }
      var text := strArr[idx.value];
      valueBytesRemaining := valueBytesRemaining - |text|;
      r := Some(Text(text));
    }

    /** A tag whose payload has a fixed size, or an unknown tag. */
    method ReadFixed(lib: Library, depth: nat, tag: Byte) returns (r: Option<Value>)
      requires Valid() && tag !in {5, 7, 8, 9, 99}
      modifies dr`position
      ensures Valid() && Step(View(), r) == DecodeTag(lib, limits, depth, tag, old(View()))
    {
      if tag == 0 {
        r := Some(Null);
      } else if tag == 1 {
        var v := dr.ReadI32();
        r := if v.Some? then Some(Int(v.value)) else None;
      } else if tag == 2 || tag == 10 {
        var v := dr.ReadI64();
        r := if v.Some? then Some(Int(v.value)) else None;
      } else if tag == 3 {
        var v := dr.ReadBytes(4);
        r := if v.Some? then Some(FloatValue(lib.widen(v.value))) else None;
      } else if tag == 4 {
        var v := dr.ReadBytes(8);
        r := if v.Some? then Some(FloatValue(v.value)) else None;
      } else if tag == 6 {
        var v := dr.ReadU8();
        r := if v.Some? then Some(Bool(v.value == 1)) else None;
      } else {
        r := None;
      }
    }

    /** decode_at: result, input position, string table and budgets are those of the function. */
    method DecodeNext(lib: Library, depth: nat) returns (r: Option<Value>)
      requires Valid()
      modifies this, dr
      ensures Valid() && Step(View(), r) == DecodeAt(lib, limits, depth, old(View()))
      decreases nodesRemaining, 0
    {
      hide DecodeItems, DecodeFields, TextStep, BinaryStep, BackReferenceStep, IntStep, FloatStep, BoolStep;
      if depth > limits.depth || nodesRemaining == 0 {
        return None;
      }
      nodesRemaining := nodesRemaining - 1;
      var tag := dr.ReadU8();
      if tag.None? {
        return None;
      }
      ghost var st := View();
      if tag.value == 5 {
        r := ReadText();
      } else if tag.value == 7 {
        r := ReadBinary();
      } else if tag.value == 99 {
        r := ReadBackReference();
      } else if tag.value == 8 {
        var count := dr.Read7BitInt();
        if count.None? || count.value > limits.items {
          return None;
        }
        r := DecodeObject(lib, depth, count.value);
      } else if tag.value == 9 {
        var count := dr.Read7BitInt();
        if count.None? || count.value > limits.items {
          return None;
        }
        r := DecodeArray(lib, depth, count.value);
      } else {
        r := ReadFixed(lib, depth, tag.value);
      }
    }

    method DecodeArray(lib: Library, depth: nat, count: nat) returns (r: Option<Value>)
      requires Valid()
      modifies this, dr
      ensures Valid()
      ensures var q := DecodeItems(lib, limits, depth, count, old(View()), []);
              View() == q.st && r == if q.out.Some? then Some(Array(q.out.value)) else None
      decreases nodesRemaining, 1
    {
      var arr := [];
      ghost var all := DecodeItems(lib, limits, depth, count, View(), []);
      for i := 0 to count
        invariant Valid() && nodesRemaining <= old(nodesRemaining)
        invariant DecodeItems(lib, limits, depth, count - i, View(), arr) == all
      {
        var v := DecodeNext(lib, depth + 1);
        if v.None? {
          return None;
        }
        arr := arr + [v.value];
      }
      r := Some(Array(arr));
    }

    method DecodeObject(lib: Library, depth: nat, count: nat) returns (r: Option<Value>)
      requires Valid()
      modifies this, dr
      ensures Valid()
      ensures var q := DecodeFields(lib, limits, depth, count, old(View()), []);
              View() == q.st && r == if q.out.Some? then Some(Object(MapOf(q.out.value))) else None
      decreases nodesRemaining, 1
    {
      var obj := [];
      ghost var entries: seq<Field> := [];
      ghost var all := DecodeFields(lib, limits, depth, count, View(), []);
      for i := 0 to count
        invariant Valid() && nodesRemaining <= old(nodesRemaining) && obj == MapOf(entries)
        invariant DecodeFields(lib, limits, depth, count - i, View(), entries) == all
      {
        var k := DecodeNext(lib, depth + 1);
        if k.None? {
          return None;
        }
        var key := KeyOf(lib, k.value);
        var v := DecodeNext(lib, depth + 1);
        if v.None? {
          return None;
        }
        assert (entries + [Field(key, v.value)])[..|entries|] == entries;
        obj := Insert(obj, key, v.value);
        entries := entries + [Field(key, v.value)];
      }
      r := Some(Object(obj));
    }
  }

  /** bon::encode */
  method EncodeValue(lib: Library, value: Value) returns (bytes: Bytes)
    ensures bytes == Encode(lib, value, map[]).bytes
  {
    var enc := new BonEncoder();
    enc.Write(lib, value);
    bytes := enc.dw.data;
  }

  /** bon::decode_with_limits */
  method DecodeWithLimits(lib: Library, data: Bytes, limits: Limits) returns (value: Option<Value>)
    ensures value == Decode(lib, limits, data)
  {
    var dec := new BonDecoder(limits);
    dec.Reset(data);
    value := dec.DecodeNext(lib, 0);
  }
}
