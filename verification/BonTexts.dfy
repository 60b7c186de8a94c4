// How long the texts of a decoded value can get: the byte limits of src/bon.rs against what lossy reading
// and base64 make of the bytes they admit.
module BonTexts {
  import opened Bytes
  import opened BonWire
  import opened Bon
  import opened BonSafety
  import Base64
  import Utf8

  /** A key that was not a text is the JSON text of some value. */
  ghost predicate Displayed(lib: Library, key: Bytes) { exists v :: key == lib.display(v) }

  /** The bytes of all texts in a value, keys that may be JSON texts aside. */
  ghost function Ink(lib: Library, v: Value): nat
    decreases v
  {
    match v
    case Text(s) => |s|
    case Array(vs) => InkOfItems(lib, vs)
    case Object(fs) => InkOfFields(lib, fs)
    case _ => 0
  }

  ghost function InkOfItems(lib: Library, vs: seq<Value>): nat
    decreases vs
  {
    if vs == [] then 0 else InkOfItems(lib, vs[..|vs| - 1]) + Ink(lib, vs[|vs| - 1])
  }

  ghost function InkOfFields(lib: Library, fs: seq<Field>): nat
    decreases fs
  {
    if fs == [] then 0
    else
      var f := fs[|fs| - 1];
      InkOfFields(lib, fs[..|fs| - 1]) + KeyInk(lib, f.key) + Ink(lib, f.value)
  }

  ghost function KeyInk(lib: Library, key: Bytes): nat { if Displayed(lib, key) then 0 else |key| }

  /** No text of the value is longer than max, keys that may be JSON texts aside. */
  ghost predicate UpTo(lib: Library, v: Value, max: nat)
    decreases v
  {
    match v
    case Text(s) => |s| <= max
    case Array(vs) => forall i :: 0 <= i < |vs| ==> UpTo(lib, vs[i], max)
    case Object(fs) =>
      forall i :: 0 <= i < |fs| ==> (|fs[i].key| <= max || Displayed(lib, fs[i].key)) && UpTo(lib, fs[i].value, max)
    case _ => true
  }

  ghost predicate ItemsUpTo(lib: Library, vs: seq<Value>, max: nat) {
    forall i :: 0 <= i < |vs| ==> UpTo(lib, vs[i], max)
  }

  ghost predicate FieldsUpTo(lib: Library, fs: seq<Field>, max: nat) {
    forall i :: 0 <= i < |fs| ==> (|fs[i].key| <= max || Displayed(lib, fs[i].key)) && UpTo(lib, fs[i].value, max)
  }

  predicate TableUpTo(table: seq<Bytes>, max: nat) { forall i :: 0 <= i < |table| ==> |table[i]| <= max }

  // ---------------------------------------------------------------- a text against its bytes

  /** Lossy reading makes at most three bytes of one. */
  lemma {:induction false} LossyTriples(s: Bytes)
    ensures |Utf8.Lossy(s)| <= 3 * |s|
  {
    if s != [] {
      LossyTriples(s[Utf8.First(s).len..]);
    }
  }

  /** Base64 makes at most four characters of one byte. */
  lemma Base64Quadruples(s: Bytes)
    ensures |Base64.Encode(s)| <= 4 * |s|
  {
    Base64.EncodedText(s);
  }

  // ---------------------------------------------------------------- sums over collections

  lemma {:induction false} InkOfFieldsCons(lib: Library, f: Field, fs: seq<Field>)
    ensures InkOfFields(lib, [f] + fs) == KeyInk(lib, f.key) + Ink(lib, f.value) + InkOfFields(lib, fs)
  {
    hide Ink, KeyInk;
    if fs == [] {
      assert [f] + fs == [f] && [f][..0] == [];
    } else {
      var n := |fs| - 1;
      InkOfFieldsCons(lib, f, fs[..n]);
      assert ([f] + fs)[..n + 1] == [f] + fs[..n];
    }
  }

  lemma {:induction false} InsertInk(lib: Library, fs: seq<Field>, key: Bytes, value: Value, max: nat)
    requires FieldsUpTo(lib, fs, max) && UpTo(lib, value, max) && (|key| <= max || Displayed(lib, key))
    ensures InkOfFields(lib, Insert(fs, key, value)) <= InkOfFields(lib, fs) + KeyInk(lib, key) + Ink(lib, value)
    ensures FieldsUpTo(lib, Insert(fs, key, value), max)
  {
    hide Ink, KeyInk, UpTo, Less, Displayed, InkOfFields;
    var f := Field(key, value);
    if fs == [] || Less(key, fs[0].key) {
      InkOfFieldsCons(lib, f, fs);
    } else {
      assert fs == [fs[0]] + fs[1..];
      InkOfFieldsCons(lib, fs[0], fs[1..]);
      if key == fs[0].key {
        InkOfFieldsCons(lib, f, fs[1..]);
      } else {
        InsertInk(lib, fs[1..], key, value, max);
        InkOfFieldsCons(lib, fs[0], Insert(fs[1..], key, value));
      }
    }
  }

  lemma {:induction false} MapOfInk(lib: Library, entries: seq<Field>, max: nat)
    requires FieldsUpTo(lib, entries, max)
    ensures InkOfFields(lib, MapOf(entries)) <= InkOfFields(lib, entries) && FieldsUpTo(lib, MapOf(entries), max)
  {
    hide Ink, KeyInk, UpTo, Displayed;
    if entries != [] {
      var n := |entries| - 1;
      MapOfInk(lib, entries[..n], max);
      InsertInk(lib, MapOf(entries[..n]), entries[n].key, entries[n].value, max);
    }
  }

  // ---------------------------------------------------------------- the decoder

  /** A step whose texts stay within max and within four times the bytes it charged. */
  ghost predicate Metered(lib: Library, st: State, r: Step<Value>, max: nat) {
    && TableUpTo(r.st.table, max)
    && (r.out.Some? ==> UpTo(lib, r.out.value, max) && Ink(lib, r.out.value) <= 4 * (st.bytes - r.st.bytes))
  }

  lemma TextStepsMetered(lib: Library, lim: Limits, st: State)
    requires TableUpTo(st.table, 4 * lim.value)
    ensures Metered(lib, st, TextStep(lim, st), 4 * lim.value)
    ensures Metered(lib, st, BinaryStep(lim, st), 4 * lim.value)
    ensures Metered(lib, st, BackReferenceStep(st), 4 * lim.value)
  {
    hide Utf8.Lossy, Base64.Encode, Take7;
    var r := TakeCharged(lim, st);
    if r.out.Some? {
      LossyTriples(r.out.value);
      Base64Quadruples(r.out.value);
    }
  }

  lemma OtherStepsMetered(lib: Library, st: State, max: nat)
    requires TableUpTo(st.table, max)
    ensures Metered(lib, st, BoolStep(st), max)
    ensures Metered(lib, st, FloatStep(st, Widened(lib, TakeBytes(st.input, 4))), max)
    ensures Metered(lib, st, FloatStep(st, TakeBytes(st.input, 8)), max)
    ensures Metered(lib, st, IntStep(st, TakeI32(st.input)), max)
    ensures Metered(lib, st, IntStep(st, TakeI64(st.input)), max)
    ensures Metered(lib, st, Step(st, None), max) && Metered(lib, st, Step(st, Some(Null)), max)
  {
    hide Finite, Take7;
  }

  lemma LeafMetered(lib: Library, lim: Limits, depth: nat, tag: Byte, st: State)
    requires TableUpTo(st.table, 4 * lim.value) && tag != 8 && tag != 9
    ensures Metered(lib, st, DecodeTag(lib, lim, depth, tag, st), 4 * lim.value)
  {
    hide Metered;
    TextStepsMetered(lib, lim, st);
    OtherStepsMetered(lib, st, 4 * lim.value);
  }

  lemma {:induction false} DecodeAtMetered(lib: Library, lim: Limits, depth: nat, st: State)
    requires TableUpTo(st.table, 4 * lim.value)
    ensures Metered(lib, st, DecodeAt(lib, lim, depth, st), 4 * lim.value)
    decreases st.nodes, 0, 0
  {
    hide DecodeItems, DecodeFields, MapOf, Take7, Displayed, KeyInk;
    if depth <= lim.depth && st.nodes > 0 && st.input != [] {
      var tag, s := st.input[0], st.(input := st.input[1..], nodes := st.nodes - 1);
      if tag == 8 || tag == 9 {
        var n := Take7(s.input);
        if n.out.Some? && n.out.value <= lim.items {
          var t := s.(input := n.rest);
          if tag == 8 {
            DecodeFieldsMetered(lib, lim, depth, n.out.value, t, []);
            var r := DecodeFields(lib, lim, depth, n.out.value, t, []);
            if r.out.Some? {
              MapOfInk(lib, r.out.value, 4 * lim.value);
            }
          } else {
            DecodeItemsMetered(lib, lim, depth, n.out.value, t, []);
          }
        }
      } else {
        LeafMetered(lib, lim, depth, tag, s);
      }
    }
  }

  lemma {:induction false} DecodeItemsMetered(lib: Library, lim: Limits, depth: nat, count: nat, st: State,
                                              acc: seq<Value>)
    requires TableUpTo(st.table, 4 * lim.value) && ItemsUpTo(lib, acc, 4 * lim.value)
    ensures var r := DecodeItems(lib, lim, depth, count, st, acc);
            && TableUpTo(r.st.table, 4 * lim.value)
            && (r.out.Some? ==>
                  ItemsUpTo(lib, r.out.value, 4 * lim.value)
                  && InkOfItems(lib, r.out.value) <= InkOfItems(lib, acc) + 4 * (st.bytes - r.st.bytes))
    decreases st.nodes, 1, count
  {
    hide UpTo, Ink;
    if count > 0 {
      DecodeAtMetered(lib, lim, depth + 1, st);
      var v := DecodeAt(lib, lim, depth + 1, st);
      if v.out.Some? {
        assert (acc + [v.out.value])[..|acc|] == acc;
        DecodeItemsMetered(lib, lim, depth, count - 1, v.st, acc + [v.out.value]);
      }
    }
  }

  lemma {:induction false} DecodeFieldsMetered(lib: Library, lim: Limits, depth: nat, count: nat, st: State,
                                               acc: seq<Field>)
    requires TableUpTo(st.table, 4 * lim.value) && FieldsUpTo(lib, acc, 4 * lim.value)
    ensures var r := DecodeFields(lib, lim, depth, count, st, acc);
            && TableUpTo(r.st.table, 4 * lim.value)
            && (r.out.Some? ==>
                  FieldsUpTo(lib, r.out.value, 4 * lim.value)
                  && InkOfFields(lib, r.out.value) <= InkOfFields(lib, acc) + 4 * (st.bytes - r.st.bytes))
    decreases st.nodes, 1, count
  {
    hide UpTo, Ink, KeyInk, Displayed;
    if count > 0 {
      DecodeAtMetered(lib, lim, depth + 1, st);
      var k := DecodeAt(lib, lim, depth + 1, st);
      if k.out.Some? {
        DecodeAtMetered(lib, lim, depth + 1, k.st);
        var v := DecodeAt(lib, lim, depth + 1, k.st);
        if v.out.Some? {
          var f := Field(KeyOf(lib, k.out.value), v.out.value);
          KeyMetered(lib, k.out.value, 4 * lim.value);
          assert (acc + [f])[..|acc|] == acc;
          DecodeFieldsMetered(lib, lim, depth, count - 1, v.st, acc + [f]);
        }
      }
    }
  }

  lemma KeyMetered(lib: Library, v: Value, max: nat)
    requires UpTo(lib, v, max)
    ensures |KeyOf(lib, v)| <= max || Displayed(lib, KeyOf(lib, v))
    ensures KeyInk(lib, KeyOf(lib, v)) <= Ink(lib, v)
  {
    if !v.Text? {
      assert KeyOf(lib, v) == lib.display(v);
    }
  }

  /** Any bytes at all: every text of a decoded value is at most four times the limit for one value, and all
      together they are at most four times the total, keys made of JSON texts aside. */
  lemma DecodedTextsAreBounded(lib: Library, lim: Limits, data: Bytes)
    ensures Decode(lib, lim, data).Some? ==>
              UpTo(lib, Decode(lib, lim, data).value, 4 * lim.value)
              && Ink(lib, Decode(lib, lim, data).value) <= 4 * lim.total
  {
    hide UpTo, Ink;
    DecodeAtMetered(lib, lim, 0, Fresh(lim, data));
  }
}
