// The decoder on arbitrary bytes: it terminates because every node it enters uses up one of the
// remaining nodes, it only moves forward in its input, and what it returns respects the limits.
module BonSafety {
  import opened Bytes
  import opened BonWire
  import opened Bon
  import opened BonRoundTrip
  import Base64
  import Utf8

  predicate Suffix(a: Bytes, b: Bytes) { |a| <= |b| && a == b[|b| - |a|..] }

  lemma SuffixTransitive(a: Bytes, b: Bytes, c: Bytes)
    requires Suffix(a, b) && Suffix(b, c)
    ensures Suffix(a, c)
  {
  }

  /** From st to after the decoder only read forward and only spent its budgets. */
  predicate Forward(st: State, after: State) {
    Suffix(after.input, st.input) && after.nodes <= st.nodes && after.bytes <= st.bytes
  }

  lemma ForwardTransitive(a: State, b: State, c: State)
    requires Forward(a, b) && Forward(b, c)
    ensures Forward(a, c)
  {
    SuffixTransitive(c.input, b.input, a.input);
  }

  /** The limits on a result met at `depth`, made of at most `nodes` nodes. */
  predicate Within(c: Cost, lim: Limits, depth: nat, nodes: int) {
    depth + c.depth <= lim.depth && c.nodes <= nodes && c.widest <= lim.items
  }

  /** Every node decoded has used at least one byte of input. */
  predicate Paid(st: State, after: State) {
    st.nodes - after.nodes <= |st.input| - |after.input|
  }

  lemma {:induction false} Take7Forward(input: Bytes, index: nat, value: nat)
    requires index <= 5
    ensures Suffix(Take7From(input, index, value).rest, input)
    decreases |input|
  {
    hide Low7, Shift7;
    if index < 5 && input != [] {
      var b := input[0];
      if !(index == 4 && b >= 16) {
        var v := value + Shift7(Low7(b), index);
        Take7Forward(input[1..], index + 1, v);
        SuffixTransitive(Take7From(input[1..], index + 1, v).rest, input[1..], input);
      }
    }
  }

  lemma Take7IsForward(input: Bytes)
    ensures Suffix(Take7(input).rest, input)
  {
    Take7Forward(input, 0, 0);
  }

  lemma ChargedForward(lim: Limits, st: State)
    ensures Forward(st, TakeCharged(lim, st).st) && TakeCharged(lim, st).st.nodes == st.nodes
  {
    Take7IsForward(st.input);
    SuffixTransitive(TakeCharged(lim, st).st.input, Take7(st.input).rest, st.input);
  }

  lemma IntsForward(input: Bytes)
    ensures Suffix(TakeI32(input).rest, input) && Suffix(TakeI64(input).rest, input)
  {
    SuffixTransitive(TakeI64(input).rest, TakeI32(input).rest, input);
  }

  lemma {:induction false} DecodeAtSafe(lib: Library, lim: Limits, depth: nat, st: State)
    ensures var r := DecodeAt(lib, lim, depth, st);
            && Forward(st, r.st)
            && (r.out.Some? ==> Within(CostOf(r.out.value), lim, depth, st.nodes - r.st.nodes) && Paid(st, r.st))
    decreases st.nodes, 0, 0
  {
    if depth <= lim.depth && st.nodes > 0 && st.input != [] {
      var s := st.(input := st.input[1..], nodes := st.nodes - 1);
      DecodeTagSafe(lib, lim, depth, st.input[0], s);
      ForwardTransitive(st, s, DecodeTag(lib, lim, depth, st.input[0], s).st);
    }
  }

  lemma {:induction false} DecodeTagSafe(lib: Library, lim: Limits, depth: nat, tag: Byte, st: State)
    requires depth <= lim.depth
    ensures var r := DecodeTag(lib, lim, depth, tag, st);
            && Forward(st, r.st)
            && (r.out.Some?
                ==> Within(CostOf(r.out.value), lim, depth, st.nodes - r.st.nodes + 1) && Paid(st, r.st))
    decreases st.nodes, 2, 0
  {
    hide Suffix, Take7;
    if tag == 8 || tag == 9 {
      Take7IsForward(st.input);
      var n := Take7(st.input);
      var s := st.(input := n.rest);
      if n.out.Some? && n.out.value <= lim.items {
        if tag == 8 {
          DecodeFieldsSafe(lib, lim, depth, n.out.value, s, [], 0);
          var r := DecodeFields(lib, lim, depth, n.out.value, s, []);
          ForwardTransitive(st, s, r.st);
          if r.out.Some? {
            MapOfIsNoLarger(r.out.value);
          }
        } else {
          DecodeItemsSafe(lib, lim, depth, n.out.value, s, [], 0);
          ForwardTransitive(st, s, DecodeItems(lib, lim, depth, n.out.value, s, []).st);
        }
      }
    } else {
      DecodeLeafSafe(lib, lim, depth, tag, st);
    }
  }

  predicate IsLeaf(v: Value) { !v.Array? && !v.Object? }

  predicate LeafStep(st: State, r: Step<Value>) {
    && Forward(st, r.st) && r.st.nodes == st.nodes && Paid(st, r.st)
    && (r.out.Some? ==> IsLeaf(r.out.value))
  }

  lemma IntStepSafe(st: State)
    ensures LeafStep(st, IntStep(st, TakeI32(st.input))) && LeafStep(st, IntStep(st, TakeI64(st.input)))
  {
    IntsForward(st.input);
  }

  lemma TextStepsSafe(lim: Limits, st: State)
    ensures LeafStep(st, TextStep(lim, st)) && LeafStep(st, BinaryStep(lim, st))
    ensures LeafStep(st, BackReferenceStep(st))
  {
    ChargedForward(lim, st);
    Take7IsForward(st.input);
  }

  lemma DecodeLeafSafe(lib: Library, lim: Limits, depth: nat, tag: Byte, st: State)
    requires tag != 8 && tag != 9
    ensures LeafStep(st, DecodeTag(lib, lim, depth, tag, st))
  {
    hide LeafStep;
    if tag == 1 || tag == 2 || tag == 10 {
      IntStepSafe(st);
    } else if tag == 5 || tag == 7 || tag == 99 {
      TextStepsSafe(lim, st);
    } else {
      OtherLeafSafe(lib, lim, depth, tag, st);
    }
  }

  lemma OtherLeafSafe(lib: Library, lim: Limits, depth: nat, tag: Byte, st: State)
    requires tag == 0 || tag == 3 || tag == 4 || tag == 6 || (tag > 10 && tag != 99)
    ensures LeafStep(st, DecodeTag(lib, lim, depth, tag, st))
  {
    hide LeafStep;
    SmallStepsSafe(lib, st);
  }

  lemma BytesStepSafe(st: State, n: nat)
    ensures var r := TakeBytes(st.input, n);
            Forward(st, st.(input := r.rest)) && Paid(st, st.(input := r.rest))
  {
  }

  lemma SmallStepsSafe(lib: Library, st: State)
    ensures LeafStep(st, FloatStep(st, Widened(lib, TakeBytes(st.input, 4))))
    ensures LeafStep(st, FloatStep(st, TakeBytes(st.input, 8)))
    ensures LeafStep(st, BoolStep(st)) && LeafStep(st, Step(st, None)) && LeafStep(st, Step(st, Some(Null)))
  {
    hide Finite, Forward, Paid;
    BytesStepSafe(st, 8);
    BytesStepSafe(st, 4);
    BytesStepSafe(st, 1);
    BytesStepSafe(st, 0);
    assert st.(input := st.input[0..]) == st;
  }

  lemma {:induction false} DecodeItemsSafe(lib: Library, lim: Limits, depth: nat, count: nat, st: State,
                                           acc: seq<Value>, used: nat)
    requires Within(CostOfItems(acc), lim, depth + 1, used)
    ensures var r := DecodeItems(lib, lim, depth, count, st, acc);
            && Forward(st, r.st)
            && (r.out.Some? ==>
                  && |r.out.value| == |acc| + count
                  && Paid(st, r.st)
                  && Within(CostOfItems(r.out.value), lim, depth + 1, used + st.nodes - r.st.nodes))
    decreases st.nodes, 1, count
  {
    if count > 0 {
      DecodeAtSafe(lib, lim, depth + 1, st);
      var v := DecodeAt(lib, lim, depth + 1, st);
      if v.out.Some? {
        CostOfItemsAppend(acc, v.out.value);
        DecodeItemsSafe(lib, lim, depth, count - 1, v.st, acc + [v.out.value], used + st.nodes - v.st.nodes);
        ForwardTransitive(st, v.st, DecodeItems(lib, lim, depth, count, st, acc).st);
      }
    }
  }

  lemma {:induction false} DecodeFieldsSafe(lib: Library, lim: Limits, depth: nat, count: nat, st: State,
                                            acc: seq<Field>, used: nat)
    requires Within(CostOfFields(acc), lim, depth + 1, used)
    ensures var r := DecodeFields(lib, lim, depth, count, st, acc);
            && Forward(st, r.st)
            && (r.out.Some? ==>
                  && |r.out.value| == |acc| + count
                  && Paid(st, r.st)
                  && Within(CostOfFields(r.out.value), lim, depth + 1, used + st.nodes - r.st.nodes))
    decreases st.nodes, 1, count
  {
    if count > 0 {
      DecodeEntrySafe(lib, lim, depth + 1, st);
      var f := DecodeEntry(lib, lim, depth + 1, st);
      if f.out.Some? {
        CostOfFieldsAppend(acc, f.out.value);
        DecodeFieldsSafe(lib, lim, depth, count - 1, f.st, acc + [f.out.value], used + st.nodes - f.st.nodes);
        ForwardTransitive(st, f.st, DecodeFields(lib, lim, depth, count, st, acc).st);
      }
    }
  }

  lemma {:induction false} DecodeEntrySafe(lib: Library, lim: Limits, depth: nat, st: State)
    ensures var r := DecodeEntry(lib, lim, depth, st);
            && Forward(st, r.st)
            && (r.out.Some? ==>
                  Within(CostOfEntry(r.out.value), lim, depth, st.nodes - r.st.nodes) && Paid(st, r.st))
    decreases st.nodes, 1, 0
  {
    DecodeAtSafe(lib, lim, depth, st);
    var k := DecodeAt(lib, lim, depth, st);
    if k.out.Some? {
      DecodeAtSafe(lib, lim, depth, k.st);
      ForwardTransitive(st, k.st, DecodeAt(lib, lim, depth, k.st).st);
      CostIsPositive(k.out.value);
    }
  }

  lemma CostIsPositive(v: Value)
    ensures CostOf(v).nodes >= 1
  {
  }

  lemma JoinLaws(a: Cost, b: Cost, c: Cost)
    ensures Join(Join(a, b), c) == Join(a, Join(b, c))
    ensures a.depth >= -1 ==> Join(a, NO_COST) == a && Join(NO_COST, a) == a
  {
  }

  lemma CostOfItemsCons(v: Value, vs: seq<Value>)
    ensures CostOfItems([v] + vs) == Join(CostOf(v), CostOfItems(vs))
  {
    assert ([v] + vs)[1..] == vs;
  }

  lemma {:induction false} CostOfItemsAppend(vs: seq<Value>, v: Value)
    ensures CostOfItems(vs + [v]) == Join(CostOfItems(vs), CostOf(v))
  {
    if vs == [] {
      hide CostOf;
      assert vs + [v] == [v] + [];
      CostOfItemsCons(v, []);
    } else {
      hide CostOf;
      CostOfItemsAppend(vs[1..], v);
      assert vs + [v] == [vs[0]] + (vs[1..] + [v]) && vs == [vs[0]] + vs[1..];
      CostOfItemsCons(vs[0], vs[1..] + [v]);
      CostOfItemsCons(vs[0], vs[1..]);
      JoinLaws(CostOf(vs[0]), CostOfItems(vs[1..]), CostOf(v));
    }
  }

  lemma CostOfFieldsCons(f: Field, fs: seq<Field>)
    ensures CostOfFields([f] + fs) == Join(CostOfEntry(f), CostOfFields(fs))
  {
    assert ([f] + fs)[1..] == fs;
  }

  lemma {:induction false} CostOfFieldsAppend(fs: seq<Field>, f: Field)
    ensures CostOfFields(fs + [f]) == Join(CostOfFields(fs), CostOfEntry(f))
  {
    if fs == [] {
      assert fs + [f] == [f] + [];
      CostOfFieldsCons(f, []);
    } else {
      CostOfFieldsAppend(fs[1..], f);
      assert fs + [f] == [fs[0]] + (fs[1..] + [f]) && fs == [fs[0]] + fs[1..];
      CostOfFieldsCons(fs[0], fs[1..] + [f]);
      CostOfFieldsCons(fs[0], fs[1..]);
      JoinLaws(CostOfEntry(fs[0]), CostOfFields(fs[1..]), CostOfEntry(f));
    }
  }

  predicate NoLarger(a: Cost, b: Cost) { a.depth <= b.depth && a.nodes <= b.nodes && a.widest <= b.widest }

  lemma JoinIsMonotone(a: Cost, b: Cost, c: Cost)
    ensures NoLarger(b, c) ==> NoLarger(Join(a, b), Join(a, c)) && NoLarger(Join(b, a), Join(c, a))
    ensures NoLarger(Join(a, b), Join(b, a)) && NoLarger(b, Join(a, b))
  {
  }

  lemma {:induction false} InsertIsNoLarger(fs: seq<Field>, key: Bytes, value: Value)
    ensures NoLarger(CostOfFields(Insert(fs, key, value)), Join(CostOfFields(fs), CostOfEntry(Field(key, value))))
    ensures |Insert(fs, key, value)| <= |fs| + 1
  {
    hide Join, CostOf, CostOfEntry, Less;
    var f := Field(key, value);
    var c := CostOfEntry(f);
    if fs == [] || Less(key, fs[0].key) {
      CostOfFieldsCons(f, fs);
      JoinIsMonotone(c, CostOfFields(fs), c);
    } else {
      var head, rest := CostOfEntry(fs[0]), CostOfFields(fs[1..]);
      if key == fs[0].key {
        CostOfFieldsCons(f, fs[1..]);
        JoinIsMonotone(c, rest, c);
        JoinIsMonotone(head, rest, c);
        JoinIsMonotone(c, rest, Join(head, rest));
      } else {
        InsertIsNoLarger(fs[1..], key, value);
        var inserted := Insert(fs[1..], key, value);
        CostOfFieldsCons(fs[0], inserted);
        JoinIsMonotone(head, CostOfFields(inserted), Join(rest, c));
        JoinLaws(head, rest, c);
      }
    }
  }

  /** A repeated key can only make the map smaller than the entries read. */
  lemma {:induction false} MapOfIsNoLarger(entries: seq<Field>)
    ensures NoLarger(CostOfFields(MapOf(entries)), CostOfFields(entries))
    ensures |MapOf(entries)| <= |entries|
  {
    if entries != [] {
      var n := |entries| - 1;
      MapOfIsNoLarger(entries[..n]);
      InsertIsNoLarger(MapOf(entries[..n]), entries[n].key, entries[n].value);
      CostOfFieldsAppend(entries[..n], entries[n]);
      assert entries[..n] + [entries[n]] == entries;
    }
  }

  /** Any bytes at all: a value that decodes respects the depth, item and node limits, and it has no
      more nodes than the input has bytes. */
  lemma DecodedValueIsBounded(lib: Library, lim: Limits, data: Bytes)
    ensures var r := Decode(lib, lim, data);
            r.Some? ==> Within(CostOf(r.value), lim, 0, lim.nodes) && CostOf(r.value).nodes <= |data|
  {
    DecodeAtSafe(lib, lim, 0, Fresh(lim, data));
  }

  // ---------------------------------------------------------------- only well-formed values

  predicate ValidTable(table: seq<Bytes>) { forall i :: 0 <= i < |table| ==> Utf8.Valid(table[i]) }

  ghost predicate DisplaysText(lib: Library) { forall v :: Utf8.Valid(lib.display(v)) }

  lemma {:induction false} DecodeAtWellFormed(lib: Library, lim: Limits, depth: nat, st: State)
    requires DisplaysText(lib) && ValidTable(st.table)
    ensures var r := DecodeAt(lib, lim, depth, st);
            ValidTable(r.st.table) && (r.out.Some? ==> WellFormed(r.out.value))
    decreases st.nodes, 0, 0
  {
    if depth <= lim.depth && st.nodes > 0 && st.input != [] {
      var tag, s := st.input[0], st.(input := st.input[1..], nodes := st.nodes - 1);
      if tag == 8 || tag == 9 {
        var n := Take7(s.input);
        if n.out.Some? && n.out.value <= lim.items {
          if tag == 8 {
            DecodeFieldsWellFormed(lib, lim, depth, n.out.value, s.(input := n.rest), []);
          } else {
            DecodeItemsWellFormed(lib, lim, depth, n.out.value, s.(input := n.rest), []);
          }
        }
      } else {
        DecodeLeafWellFormed(lib, lim, depth, tag, s);
      }
    }
  }

  predicate GoodStep(r: Step<Value>) {
    ValidTable(r.st.table) && (r.out.Some? ==> IsLeaf(r.out.value) && WellFormed(r.out.value))
  }

  lemma TextStepWellFormed(lim: Limits, st: State)
    requires ValidTable(st.table)
    ensures GoodStep(TextStep(lim, st)) && GoodStep(BinaryStep(lim, st))
  {
    hide Utf8.Valid, Utf8.Lossy, Base64.Encode, Take7;
    var r := TakeCharged(lim, st);
    if r.out.Some? {
      Utf8.LossyIsValid(r.out.value);
      Base64.EncodedText(r.out.value);
      Utf8.AsciiIsValid(Base64.Encode(r.out.value));
    }
  }

  lemma SmallStepsWellFormed(lib: Library, st: State)
    requires ValidTable(st.table)
    ensures GoodStep(BackReferenceStep(st)) && GoodStep(BoolStep(st))
    ensures GoodStep(FloatStep(st, Widened(lib, TakeBytes(st.input, 4))))
    ensures GoodStep(FloatStep(st, TakeBytes(st.input, 8)))
    ensures GoodStep(IntStep(st, TakeI32(st.input))) && GoodStep(IntStep(st, TakeI64(st.input)))
    ensures GoodStep(Step(st, None)) && GoodStep(Step(st, Some(Null)))
  {
    hide Utf8.Valid, Finite, Take7;
  }

  lemma DecodeLeafWellFormed(lib: Library, lim: Limits, depth: nat, tag: Byte, st: State)
    requires ValidTable(st.table) && tag != 8 && tag != 9
    ensures GoodStep(DecodeTag(lib, lim, depth, tag, st))
  {
    hide GoodStep;
    TextStepWellFormed(lim, st);
    SmallStepsWellFormed(lib, st);
  }

  lemma {:induction false} DecodeItemsWellFormed(lib: Library, lim: Limits, depth: nat, count: nat, st: State,
                                                 acc: seq<Value>)
    requires DisplaysText(lib) && ValidTable(st.table) && WellFormedItems(acc)
    ensures var r := DecodeItems(lib, lim, depth, count, st, acc);
            ValidTable(r.st.table) && (r.out.Some? ==> WellFormedItems(r.out.value))
    decreases st.nodes, 1, count
  {
    if count > 0 {
      DecodeAtWellFormed(lib, lim, depth + 1, st);
      var v := DecodeAt(lib, lim, depth + 1, st);
      if v.out.Some? {
        DecodeItemsWellFormed(lib, lim, depth, count - 1, v.st, acc + [v.out.value]);
      }
    }
  }

  lemma {:induction false} DecodeFieldsWellFormed(lib: Library, lim: Limits, depth: nat, count: nat, st: State,
                                                  acc: seq<Field>)
    requires DisplaysText(lib) && ValidTable(st.table) && WellFormedFields(acc)
    ensures var r := DecodeFields(lib, lim, depth, count, st, acc);
            ValidTable(r.st.table)
            && (r.out.Some? ==> SortedKeys(MapOf(r.out.value)) && WellFormedFields(MapOf(r.out.value)))
    decreases st.nodes, 1, count
  {
    if count == 0 {
      MapOfIsSorted(acc);
    } else {
      DecodeAtWellFormed(lib, lim, depth + 1, st);
      var k := DecodeAt(lib, lim, depth + 1, st);
      if k.out.Some? {
        DecodeAtWellFormed(lib, lim, depth + 1, k.st);
        var v := DecodeAt(lib, lim, depth + 1, k.st);
        if v.out.Some? {
          var f := Field(KeyOf(lib, k.out.value), v.out.value);
          assert Utf8.Valid(f.key);
          DecodeFieldsWellFormed(lib, lim, depth, count - 1, v.st, acc + [f]);
        }
      }
    }
  }

  predicate AllAbove(low: Bytes, fs: seq<Field>) {
    forall i :: 0 <= i < |fs| ==> Less(low, fs[i].key)
  }

  lemma {:induction false} InsertStaysAbove(low: Bytes, fs: seq<Field>, key: Bytes, value: Value)
    requires AllAbove(low, fs) && Less(low, key)
    ensures AllAbove(low, Insert(fs, key, value))
  {
    hide Less;
    if fs != [] && !Less(key, fs[0].key) && key != fs[0].key {
      InsertStaysAbove(low, fs[1..], key, value);
    }
  }

  lemma FirstKeyIsLeast(low: Bytes, fs: seq<Field>)
    requires SortedKeys(fs) && (fs == [] || Less(low, fs[0].key))
    ensures AllAbove(low, fs)
  {
    hide Less;
    forall i | 0 <= i < |fs| ensures Less(low, fs[i].key) {
      if i > 0 {
        LessTransitive(low, fs[0].key, fs[i].key);
      }
    }
  }

  lemma {:induction false} InsertIsSorted(fs: seq<Field>, key: Bytes, value: Value)
    requires SortedKeys(fs) && WellFormedFields(fs) && Utf8.Valid(key) && WellFormed(value)
    ensures SortedKeys(Insert(fs, key, value)) && WellFormedFields(Insert(fs, key, value))
  {
    hide WellFormed, Utf8.Valid, Less;
    if fs == [] || Less(key, fs[0].key) {
      FirstKeyIsLeast(key, fs);
    } else if key != fs[0].key {
      InsertIsSorted(fs[1..], key, value);
      LessTrichotomy(key, fs[0].key);
      InsertStaysAbove(fs[0].key, fs[1..], key, value);
    }
  }

  lemma {:induction false} MapOfIsSorted(entries: seq<Field>)
    requires WellFormedFields(entries)
    ensures SortedKeys(MapOf(entries)) && WellFormedFields(MapOf(entries))
  {
    if entries != [] {
      var n := |entries| - 1;
      MapOfIsSorted(entries[..n]);
      InsertIsSorted(MapOf(entries[..n]), entries[n].key, entries[n].value);
    }
  }

  /** Any bytes at all: valid UTF-8 texts, sorted maps, finite floats and integers in range. */
  lemma DecodedValueIsWellFormed(lib: Library, lim: Limits, data: Bytes)
    requires DisplaysText(lib)
    ensures Decode(lib, lim, data).Some? ==> WellFormed(Decode(lib, lim, data).value)
  {
    DecodeAtWellFormed(lib, lim, 0, Fresh(lim, data));
  }
}
