// The type shapes of src/proxy_capture.rs: what a JSON value looks like with its contents removed,
// bounded in depth and width, and canonical for arrays.
module Shapes {
  import opened Bytes
  import opened Bon
  import opened BonRoundTrip
  import BonSafety
  import Packet
  import Utf8

  const MAX_SHAPE_DEPTH := 16
  const MAX_SHAPE_FIELDS := 256
  const MAX_ARRAY_VARIANTS := 16
  const MAX_ARRAY_ITEMS := 256
  const MAX_KEY_CHARS := 256

  const NULL_SHAPE := Text(Ascii("null"))
  const BOOLEAN_SHAPE := Text(Ascii("boolean"))
  const NUMBER_SHAPE := Text(Ascii("number"))
  const STRING_SHAPE := Text(Ascii("string"))
  const DEPTH_LIMIT := Text(Ascii("depth_limit"))
  const VARIANT_LIMIT := Text(Ascii("variant_limit"))
  const TRUNCATED := Ascii("$truncated")
  const ELLIPSIS := Ascii("...")

  /** The first n characters of a text. */
  function TakeChars(s: Bytes, n: nat): Bytes {
    if n == 0 || s == [] then []
    else
      var c := Utf8.First(s).len;
      s[..c] + TakeChars(s[c..], n - 1)
  }

  /** A key of more than 256 bytes is cut to its first 256 characters. */
  function ShortKey(key: Bytes): Bytes {
    if |key| > MAX_KEY_CHARS then TakeChars(key, MAX_KEY_CHARS) + ELLIPSIS else key
  }

  // ---------------------------------------------------------------- sorting by JSON text

  function InsertByText(lib: Library, v: Value, sorted: seq<Value>): seq<Value> {
    if sorted == [] then [v]
    else if Less(lib.display(v), lib.display(sorted[0])) then [v] + sorted
    else [sorted[0]] + InsertByText(lib, v, sorted[1..])
  }

  /** The stable sort by JSON text. */
  function SortByText(lib: Library, vs: seq<Value>): seq<Value> {
    if vs == [] then []
    else InsertByText(lib, vs[|vs| - 1], SortByText(lib, vs[..|vs| - 1]))
  }

  // ---------------------------------------------------------------- shapes

  function Shape(lib: Library, v: Value, depth: nat): Value
    decreases v
  {
    if depth >= MAX_SHAPE_DEPTH then DEPTH_LIMIT
    else
      match v
      case Null => NULL_SHAPE
      case Bool(_) => BOOLEAN_SHAPE
      case Int(_) => NUMBER_SHAPE
      case Float(_) => NUMBER_SHAPE
      case Text(_) => STRING_SHAPE
      case Array(vs) => Array(SortByText(lib, Variants(lib, vs, 0, depth + 1, [])))
      case Object(fs) => Object(MapOf(ShapeEntries(lib, fs, 0, depth + 1) + Truncation(fs)))
  }

  /** The array loop from element i on: distinct shapes of the first elements, cut off at the limit. */
  function Variants(lib: Library, vs: seq<Value>, i: nat, depth: nat, acc: seq<Value>): seq<Value>
    decreases vs, |vs| - i
  {
    if i >= |vs| || i >= MAX_ARRAY_ITEMS then acc
    else
      var s := Shape(lib, vs[i], depth);
      if s in acc then Variants(lib, vs, i + 1, depth, acc)
      else if |acc| >= MAX_ARRAY_VARIANTS then acc + [VARIANT_LIMIT]
      else Variants(lib, vs, i + 1, depth, acc + [s])
  }

  /** The object loop from field i on, in the order of insertion. */
  function ShapeEntries(lib: Library, fs: seq<Field>, i: nat, depth: nat): seq<Field>
    decreases fs, |fs| - i
  {
    if i >= |fs| || i >= MAX_SHAPE_FIELDS then []
    else
      [Field(ShortKey(fs[i].key), Shape(lib, fs[i].value, depth))] + ShapeEntries(lib, fs, i + 1, depth)
  }

  function Truncation(fs: seq<Field>): seq<Field> {
    if |fs| > MAX_SHAPE_FIELDS then [Field(TRUNCATED, Bool(true))] else []
  }

  /** value_shape */
  method ValueShape(lib: Library, value: Value, depth: nat) returns (shape: Value)
    ensures shape == Shape(lib, value, depth)
    decreases value, 1
  {
    if depth >= MAX_SHAPE_DEPTH {
      return DEPTH_LIMIT;
    }
    match value
    case Null => shape := NULL_SHAPE;
    case Bool(_) => shape := BOOLEAN_SHAPE;
    case Int(_) => shape := NUMBER_SHAPE;
    case Float(_) => shape := NUMBER_SHAPE;
    case Text(_) => shape := STRING_SHAPE;
    case Array(vs) =>
      var variants := ArrayVariants(lib, vs, depth + 1);
      shape := Array(SortByText(lib, variants));
    case Object(fs) =>
      var fields := ObjectFields(lib, fs, depth + 1);
      shape := Object(fields);
  }

  /** The array branch of value_shape, before sorting. */
  method ArrayVariants(lib: Library, vs: seq<Value>, depth: nat) returns (variants: seq<Value>)
    ensures variants == Variants(lib, vs, 0, depth, [])
    decreases vs, 0
  {
    hide Shape;
    var i := 0;
    variants := [];
    while i < |vs| && i < MAX_ARRAY_ITEMS
      invariant i <= |vs|
      invariant Variants(lib, vs, i, depth, variants) == Variants(lib, vs, 0, depth, [])
    {
      var s := ValueShape(lib, vs[i], depth);
      if s !in variants {
        if |variants| >= MAX_ARRAY_VARIANTS {
          variants := variants + [VARIANT_LIMIT];
          return;
        }
        variants := variants + [s];
      }
      i := i + 1;
    }
  }

  /** The object branch of value_shape. */
  method ObjectFields(lib: Library, fs: seq<Field>, depth: nat) returns (fields: seq<Field>)
    ensures fields == MapOf(ShapeEntries(lib, fs, 0, depth) + Truncation(fs))
    decreases fs, 0
  {
    hide Shape, Insert, ShortKey;
    var i := 0;
    fields := [];
    ghost var entries: seq<Field>, all := [], ShapeEntries(lib, fs, 0, depth);
    while i < |fs| && i < MAX_SHAPE_FIELDS
      invariant i <= |fs| && fields == MapOf(entries)
      invariant entries + ShapeEntries(lib, fs, i, depth) == all
    {
      var s := ValueShape(lib, fs[i].value, depth);
      var f := Field(ShortKey(fs[i].key), s);
      assert (entries + [f])[..|entries|] == entries;
      fields := Insert(fields, f.key, f.value);
      entries := entries + [f];
      i := i + 1;
    }
    assert entries == all;
    if |fs| > MAX_SHAPE_FIELDS {
      assert (all + Truncation(fs))[..|all|] == all;
      fields := Insert(fields, TRUNCATED, Bool(true));
    } else {
      assert all + Truncation(fs) == all;
    }
  }

  // ---------------------------------------------------------------- bounds

  /** Depth below this point, variants per array and fields per object. */
  predicate BoundedShape(v: Value, depth: nat)
    decreases v
  {
    match v
    case Array(vs) => depth > 0 && |vs| <= 17
                      && forall i :: 0 <= i < |vs| ==> BoundedShape(vs[i], depth - 1)
    case Object(fs) => depth > 0 && |fs| <= 257
                       && forall i :: 0 <= i < |fs| ==> BoundedShape(fs[i].value, depth - 1)
    case _ => true
  }

  predicate BoundedItems(vs: seq<Value>, depth: nat) { forall i :: 0 <= i < |vs| ==> BoundedShape(vs[i], depth) }

  predicate BoundedFields(fs: seq<Field>, depth: nat) {
    forall i :: 0 <= i < |fs| ==> BoundedShape(fs[i].value, depth)
  }

  /** Every shape nests at most sixteen levels, with at most 17 variants per array and 257 fields per object. */
  lemma {:induction false} ShapeIsBounded(lib: Library, v: Value, depth: nat)
    ensures BoundedShape(Shape(lib, v, depth), if depth <= 16 then 16 - depth else 0)
    decreases v, 1
  {
    if depth < MAX_SHAPE_DEPTH {
      match v
      case Array(vs) =>
        var variants := Variants(lib, vs, 0, depth + 1, []);
        VariantsAreBounded(lib, vs, 0, depth + 1, []);
        SortIsBounded(lib, variants, MAX_SHAPE_DEPTH - depth - 1);
      case Object(fs) =>
        var entries := ShapeEntries(lib, fs, 0, depth + 1);
        EntriesAreBounded(lib, fs, 0, depth + 1);
        MapOfIsBounded(entries + Truncation(fs), MAX_SHAPE_DEPTH - depth - 1);
        BonSafety.MapOfIsNoLarger(entries + Truncation(fs));
      case _ =>
    }
  }

  lemma {:induction false} VariantsAreBounded(lib: Library, vs: seq<Value>, i: nat, depth: nat, acc: seq<Value>)
    requires depth <= MAX_SHAPE_DEPTH && |acc| <= MAX_ARRAY_VARIANTS && BoundedItems(acc, MAX_SHAPE_DEPTH - depth)
    ensures |Variants(lib, vs, i, depth, acc)| <= MAX_ARRAY_VARIANTS + 1
    ensures BoundedItems(Variants(lib, vs, i, depth, acc), MAX_SHAPE_DEPTH - depth)
    decreases vs, 0, |vs| - i
  {
    if i < |vs| && i < MAX_ARRAY_ITEMS {
      var s := Shape(lib, vs[i], depth);
      ShapeIsBounded(lib, vs[i], depth);
      if s in acc {
        VariantsAreBounded(lib, vs, i + 1, depth, acc);
      } else if |acc| < MAX_ARRAY_VARIANTS {
        VariantsAreBounded(lib, vs, i + 1, depth, acc + [s]);
      }
    }
  }

  lemma {:induction false} EntriesAreBounded(lib: Library, fs: seq<Field>, i: nat, depth: nat)
    requires depth <= MAX_SHAPE_DEPTH && i <= MAX_SHAPE_FIELDS
    ensures |ShapeEntries(lib, fs, i, depth)| <= MAX_SHAPE_FIELDS - i
    ensures BoundedFields(ShapeEntries(lib, fs, i, depth), MAX_SHAPE_DEPTH - depth)
    decreases fs, 0, |fs| - i
  {
    if i < |fs| && i < MAX_SHAPE_FIELDS {
      ShapeIsBounded(lib, fs[i].value, depth);
      EntriesAreBounded(lib, fs, i + 1, depth);
    }
  }

  lemma {:induction false} InsertByTextIsBounded(lib: Library, v: Value, sorted: seq<Value>, depth: nat)
    requires BoundedShape(v, depth) && BoundedItems(sorted, depth)
    ensures BoundedItems(InsertByText(lib, v, sorted), depth)
    ensures |InsertByText(lib, v, sorted)| == |sorted| + 1
  {
    hide BoundedShape, Less;
    if sorted != [] && !Less(lib.display(v), lib.display(sorted[0])) {
      InsertByTextIsBounded(lib, v, sorted[1..], depth);
    }
  }

  lemma {:induction false} SortIsBounded(lib: Library, vs: seq<Value>, depth: nat)
    requires BoundedItems(vs, depth)
    ensures BoundedItems(SortByText(lib, vs), depth) && |SortByText(lib, vs)| == |vs|
  {
    hide BoundedShape;
    if vs != [] {
      SortIsBounded(lib, vs[..|vs| - 1], depth);
      InsertByTextIsBounded(lib, vs[|vs| - 1], SortByText(lib, vs[..|vs| - 1]), depth);
    }
  }

  lemma {:induction false} InsertIsBounded(fs: seq<Field>, key: Bytes, value: Value, depth: nat)
    requires BoundedFields(fs, depth) && BoundedShape(value, depth)
    ensures BoundedFields(Insert(fs, key, value), depth)
  {
    hide BoundedShape, Less;
    if fs != [] && !Less(key, fs[0].key) && key != fs[0].key {
      InsertIsBounded(fs[1..], key, value, depth);
    }
  }

  lemma {:induction false} MapOfIsBounded(entries: seq<Field>, depth: nat)
    requires BoundedFields(entries, depth)
    ensures BoundedFields(MapOf(entries), depth)
  {
    hide BoundedShape;
    if entries != [] {
      var n := |entries| - 1;
      MapOfIsBounded(entries[..n], depth);
      InsertIsBounded(MapOf(entries[..n]), entries[n].key, entries[n].value, depth);
    }
  }

  // ---------------------------------------------------------------- objects that fit

  predicate ShortKeys(fs: seq<Field>) { forall i :: 0 <= i < |fs| ==> |fs[i].key| <= MAX_KEY_CHARS }

  /** An object of at most 256 fields with keys of at most 256 bytes keeps its keys, in order, and each
      field's value is replaced by its own shape. */
  lemma ObjectShapeKeepsKeys(lib: Library, fs: seq<Field>, depth: nat)
    requires depth < MAX_SHAPE_DEPTH && |fs| <= MAX_SHAPE_FIELDS && SortedKeys(fs) && ShortKeys(fs)
    ensures var s := Shape(lib, Object(fs), depth);
            && s.Object? && |s.fields| == |fs|
            && forall i :: 0 <= i < |fs| ==>
                 s.fields[i] == Field(fs[i].key, Shape(lib, fs[i].value, depth + 1))
  {
    var entries := ShapeEntries(lib, fs, 0, depth + 1);
    EntriesAre(lib, fs, 0, depth + 1);
    assert entries + Truncation(fs) == entries;
    assert SortedKeys(entries) by {
      hide Shape, Less;
    }
    MapOfSorted(entries);
  }

  /** How many fields of an object are looked at. */
  function Looked(fs: seq<Field>): nat { if |fs| <= 256 then |fs| else 256 }

  lemma {:induction false} EntriesAre(lib: Library, fs: seq<Field>, i: nat, depth: nat)
    requires i <= Looked(fs)
    ensures |ShapeEntries(lib, fs, i, depth)| == Looked(fs) - i
    ensures forall j :: 0 <= j < Looked(fs) - i ==>
              ShapeEntries(lib, fs, i, depth)[j] == Field(ShortKey(fs[i + j].key), Shape(lib, fs[i + j].value, depth))
    decreases |fs| - i
  {
    hide Shape, ShortKey;
    if i < |fs| && i < MAX_SHAPE_FIELDS {
      EntriesAre(lib, fs, i + 1, depth);
    }
  }

  // ---------------------------------------------------------------- canonical arrays

  /** Different values of the set have different JSON texts. */
  predicate TextsDiffer(lib: Library, vs: set<Value>) {
    forall a, b :: a in vs && b in vs && lib.display(a) == lib.display(b) ==> a == b
  }

  /** Strictly ascending JSON texts. */
  predicate Ascending(lib: Library, s: seq<Value>) {
    forall i, j :: 0 <= i < j < |s| ==> Less(lib.display(s[i]), lib.display(s[j]))
  }

  predicate NoRepeats(s: seq<Value>) { forall i, j :: 0 <= i < j < |s| ==> s[i] != s[j] }

  function Elements(s: seq<Value>): set<Value> { set v | v in s }

  lemma {:induction false} InsertByTextKeepsOrder(lib: Library, v: Value, sorted: seq<Value>)
    requires TextsDiffer(lib, Elements(sorted) + {v}) && Ascending(lib, sorted) && v !in sorted
    ensures Ascending(lib, InsertByText(lib, v, sorted))
    ensures Elements(InsertByText(lib, v, sorted)) == Elements(sorted) + {v}
  {
    hide Less;
    if sorted != [] {
      var head, tail := sorted[0], sorted[1..];
      assert sorted == [head] + tail;
      if Less(lib.display(v), lib.display(head)) {
        AscendingCons(lib, v, sorted);
      } else {
        assert Elements(sorted) == {head} + Elements(tail);
        LessTrichotomy(lib.display(v), lib.display(head));
        InsertByTextKeepsOrder(lib, v, tail);
        var r := InsertByText(lib, v, tail);
        assert forall w :: w in r ==> w in Elements(r);
        assert forall w :: w in r ==> w in tail || w == v;
        PrependAscending(lib, head, r);
        assert Elements([head] + r) == {head} + Elements(r);
      }
    }
  }

  lemma PrependAscending(lib: Library, head: Value, tail: seq<Value>)
    requires Ascending(lib, tail) && forall w :: w in tail ==> Less(lib.display(head), lib.display(w))
    ensures Ascending(lib, [head] + tail)
  {
    hide Less;
  }

  lemma AscendingCons(lib: Library, v: Value, sorted: seq<Value>)
    requires Ascending(lib, sorted) && sorted != [] && Less(lib.display(v), lib.display(sorted[0]))
    ensures Ascending(lib, [v] + sorted)
    ensures Elements([v] + sorted) == Elements(sorted) + {v}
  {
    hide Less;
    forall w | w in sorted ensures Less(lib.display(v), lib.display(w)) {
      var i :| 0 <= i < |sorted| && sorted[i] == w;
      if i > 0 {
        LessTransitive(lib.display(v), lib.display(sorted[0]), lib.display(w));
      }
    }
    PrependAscending(lib, v, sorted);
  }

  lemma {:induction false} SortAscends(lib: Library, vs: seq<Value>)
    requires TextsDiffer(lib, Elements(vs)) && NoRepeats(vs)
    ensures Ascending(lib, SortByText(lib, vs)) && Elements(SortByText(lib, vs)) == Elements(vs)
  {
    if vs != [] {
      var n := |vs| - 1;
      assert Elements(vs) == Elements(vs[..n]) + {vs[n]};
      SortAscends(lib, vs[..n]);
      var sorted := SortByText(lib, vs[..n]);
      assert vs[n] !in sorted by {
        assert vs[n] !in Elements(vs[..n]);
        assert forall w :: w in sorted ==> w in Elements(sorted);
      }
      InsertByTextKeepsOrder(lib, vs[n], sorted);
      assert vs == vs[..n] + [vs[n]];
    }
  }

  lemma NoElements(s: seq<Value>)
    ensures s == [] <==> Elements(s) == {}
  {
    assert s != [] ==> s[0] in Elements(s);
  }

  /** An ascending list is determined by its elements. */
  lemma {:induction false} AscendingIsUnique(lib: Library, s: seq<Value>, t: seq<Value>)
    requires Ascending(lib, s) && Ascending(lib, t) && Elements(s) == Elements(t)
    ensures s == t
  {
    hide Less;
    NoElements(s);
    NoElements(t);
    if s == [] {
      assert t == [];
    } else {
      SameHead(lib, s, t);
      TailElements(lib, s);
      TailElements(lib, t);
      AscendingIsUnique(lib, s[1..], t[1..]);
      assert s == [s[0]] + s[1..] && t == [t[0]] + t[1..];
    }
  }

  lemma SameHead(lib: Library, s: seq<Value>, t: seq<Value>)
    requires s != [] && t != [] && Ascending(lib, s) && Ascending(lib, t) && Elements(s) == Elements(t)
    ensures s[0] == t[0]
  {
    hide Less;
    assert s[0] in Elements(t) && t[0] in Elements(s);
    LessTrichotomy(lib.display(s[0]), lib.display(t[0]));
  }

  lemma TailElements(lib: Library, s: seq<Value>)
    requires s != [] && Ascending(lib, s)
    ensures Ascending(lib, s[1..]) && Elements(s[1..]) == Elements(s) - {s[0]}
  {
    hide Less;
    assert s == [s[0]] + s[1..];
    forall w | w in s[1..] ensures w != s[0] {
      var i :| 0 <= i < |s[1..]| && s[1..][i] == w;
      assert Less(lib.display(s[0]), lib.display(s[i + 1]));
      LessTrichotomy(lib.display(s[0]), lib.display(s[0]));
    }
  }

  /** The shapes of the elements the array loop looks at, from element i on. */
  function ElementShapes(lib: Library, vs: seq<Value>, i: nat, depth: nat): set<Value> {
    set j | i <= j < |vs| && j < MAX_ARRAY_ITEMS :: Shape(lib, vs[j], depth)
  }

  lemma {:induction false} CardinalityOfList(s: seq<Value>)
    requires NoRepeats(s)
    ensures |Elements(s)| == |s|
  {
    if s != [] {
      var n := |s| - 1;
      CardinalityOfList(s[..n]);
      assert Elements(s) == Elements(s[..n]) + {s[n]};
    }
  }

  lemma SubsetCardinality(a: set<Value>, b: set<Value>)
    requires a <= b
    ensures |a| <= |b|
    decreases |a|
  {
    if a != {} {
      var v :| v in a;
      SubsetCardinality(a - {v}, b - {v});
    }
  }

  /** With at most sixteen distinct shapes the loop gathers exactly those, each once. */
  lemma {:induction false} VariantsGatherShapes(lib: Library, vs: seq<Value>, i: nat, depth: nat, acc: seq<Value>)
    requires NoRepeats(acc)
    requires |Elements(acc) + ElementShapes(lib, vs, i, depth)| <= MAX_ARRAY_VARIANTS
    ensures NoRepeats(Variants(lib, vs, i, depth, acc))
    ensures Elements(Variants(lib, vs, i, depth, acc)) == Elements(acc) + ElementShapes(lib, vs, i, depth)
    decreases |vs| - i
  {
    hide Shape, ElementShapes, Elements;
    if i < |vs| && i < MAX_ARRAY_ITEMS {
      var s := Shape(lib, vs[i], depth);
      var rest := ElementShapes(lib, vs, i + 1, depth);
      FirstElementShape(lib, vs, i, depth);
      MoreElements(acc, s);
      if s in acc {
        assert Elements(acc) + ({s} + rest) == Elements(acc) + rest;
        VariantsGatherShapes(lib, vs, i + 1, depth, acc);
      } else {
        var more := acc + [s];
        assert Elements(more) + rest == Elements(acc) + ({s} + rest);
        CardinalityOfList(more);
        SubsetCardinality(Elements(more), Elements(more) + rest);
        VariantsGatherShapes(lib, vs, i + 1, depth, more);
      }
    } else {
      NoElementShapes(lib, vs, i, depth);
    }
  }

  lemma FirstElementShape(lib: Library, vs: seq<Value>, i: nat, depth: nat)
    requires i < |vs| && i < MAX_ARRAY_ITEMS
    ensures ElementShapes(lib, vs, i, depth) == {Shape(lib, vs[i], depth)} + ElementShapes(lib, vs, i + 1, depth)
  {
    hide Shape;
  }

  lemma NoElementShapes(lib: Library, vs: seq<Value>, i: nat, depth: nat)
    requires i >= |vs| || i >= MAX_ARRAY_ITEMS
    ensures ElementShapes(lib, vs, i, depth) == {}
  {
  }

  lemma MoreElements(s: seq<Value>, v: Value)
    ensures Elements(s + [v]) == Elements(s) + {v}
    ensures v in s <==> v in Elements(s)
  {
  }

  /** Arrays whose inspected elements have the same set of at most sixteen shapes get the same shape,
      whatever the order and the repetitions. */
  lemma ArrayShapesAreCanonical(lib: Library, vs: seq<Value>, ws: seq<Value>, depth: nat)
    requires TextsDiffer(lib, ElementShapes(lib, vs, 0, depth + 1))
    requires ElementShapes(lib, vs, 0, depth + 1) == ElementShapes(lib, ws, 0, depth + 1)
    requires |ElementShapes(lib, vs, 0, depth + 1)| <= MAX_ARRAY_VARIANTS
    ensures Shape(lib, Array(vs), depth) == Shape(lib, Array(ws), depth)
  {
    hide SortByText, Variants, ElementShapes;
    var none: seq<Value> := [];
    var shapes := ElementShapes(lib, vs, 0, depth + 1);
    assert Elements(none) + shapes == shapes;
    VariantsGatherShapes(lib, vs, 0, depth + 1, none);
    VariantsGatherShapes(lib, ws, 0, depth + 1, none);
    var a, b := Variants(lib, vs, 0, depth + 1, none), Variants(lib, ws, 0, depth + 1, none);
    SortAscends(lib, a);
    SortAscends(lib, b);
    AscendingIsUnique(lib, SortByText(lib, a), SortByText(lib, b));
  }

  // ---------------------------------------------------------------- what each shape says

  /** A value sixteen levels down is not looked at; above, each kind of scalar has its own name. */
  lemma ScalarShapes(lib: Library, v: Value, depth: nat)
    ensures depth >= 16 ==> Shape(lib, v, depth) == Text(Ascii("depth_limit"))
    ensures depth < 16 && !v.Array? && !v.Object? ==>
              Shape(lib, v, depth) == Text(Ascii(if v.Null? then "null"
                                                 else if v.Bool? then "boolean"
                                                 else if v.Text? then "string"
                                                 else "number"))
  {
    hide Ascii, Variants, ShapeEntries, MapOf, SortByText;
  }

  /** How many elements of an array are looked at. */
  function Inspected(vs: seq<Value>): nat { if |vs| <= 256 then |vs| else 256 }

  /** The loop gathers different shapes, each once, and goes on to the end or to a seventeenth one at element n. */
  lemma {:induction false} VariantsAre(lib: Library, vs: seq<Value>, i: nat, depth: nat, acc: seq<Value>)
    returns (kinds: seq<Value>, n: nat)
    requires i <= Inspected(vs) && NoRepeats(acc) && |acc| <= 16
    ensures i <= n <= Inspected(vs) && NoRepeats(kinds) && |kinds| <= 16
    ensures forall s :: s in kinds <==> s in acc || exists j :: i <= j < n && Shape(lib, vs[j], depth) == s
    ensures if n == Inspected(vs) then Variants(lib, vs, i, depth, acc) == kinds
            else
              && |kinds| == 16 && Shape(lib, vs[n], depth) !in kinds
              && Variants(lib, vs, i, depth, acc) == kinds + [VARIANT_LIMIT]
    decreases |vs| - i
  {
    hide Shape;
    kinds, n := acc, i;
    if i < Inspected(vs) {
      var s := Shape(lib, vs[i], depth);
      if s in acc {
        kinds, n := VariantsAre(lib, vs, i + 1, depth, acc);
      } else if |acc| < 16 {
        kinds, n := VariantsAre(lib, vs, i + 1, depth, acc + [s]);
      }
    }
  }

  /** Ascending JSON texts, which may be equal. */
  predicate Sorted(lib: Library, s: seq<Value>) {
    forall i, j :: 0 <= i < j < |s| ==> !Less(lib.display(s[j]), lib.display(s[i]))
  }

  lemma {:induction false} InsertByTextSorts(lib: Library, v: Value, sorted: seq<Value>)
    requires Sorted(lib, sorted)
    ensures Sorted(lib, InsertByText(lib, v, sorted))
    ensures multiset(InsertByText(lib, v, sorted)) == multiset(sorted) + multiset{v}
  {
    hide Less;
    if sorted != [] {
      var head, tail := sorted[0], sorted[1..];
      assert sorted == [head] + tail;
      if Less(lib.display(v), lib.display(head)) {
        forall w | w in sorted ensures !Less(lib.display(w), lib.display(v)) {
          NotBefore(lib, v, head, w);
        }
        PrependSorted(lib, v, sorted);
      } else {
        InsertByTextSorts(lib, v, tail);
        var r := InsertByText(lib, v, tail);
        assert forall w :: w in r ==> w in multiset(r);
        PrependSorted(lib, head, r);
      }
    }
  }

  lemma NotBefore(lib: Library, v: Value, head: Value, w: Value)
    requires Less(lib.display(v), lib.display(head)) && (w == head || !Less(lib.display(w), lib.display(head)))
    ensures !Less(lib.display(w), lib.display(v))
  {
    LessTrichotomy(lib.display(v), lib.display(head));
    if Less(lib.display(w), lib.display(v)) {
      LessTransitive(lib.display(w), lib.display(v), lib.display(head));
    }
  }

  lemma PrependSorted(lib: Library, head: Value, tail: seq<Value>)
    requires Sorted(lib, tail) && forall w :: w in tail ==> !Less(lib.display(w), lib.display(head))
    ensures Sorted(lib, [head] + tail)
  {
    hide Less;
  }

  lemma {:induction false} SortSorts(lib: Library, vs: seq<Value>)
    ensures Sorted(lib, SortByText(lib, vs)) && multiset(SortByText(lib, vs)) == multiset(vs)
  {
    if vs != [] {
      var n := |vs| - 1;
      SortSorts(lib, vs[..n]);
      InsertByTextSorts(lib, vs[n], SortByText(lib, vs[..n]));
      assert vs == vs[..n] + [vs[n]];
    }
  }

  /** The array's shape lists, by JSON text, the different shapes of its first n elements: of all elements or of
      256, unless a seventeenth shape comes at element n, for which it has one marker more. */
  lemma ArrayShapeHolds(lib: Library, vs: seq<Value>, depth: nat) returns (kinds: seq<Value>, n: nat)
    requires depth < 16
    ensures n <= |vs| && n <= 256 && NoRepeats(kinds) && |kinds| <= 16
    ensures forall s :: s in kinds <==> exists j :: 0 <= j < n && Shape(lib, vs[j], depth + 1) == s
    ensures n < |vs| && n < 256 ==> |kinds| == 16 && Shape(lib, vs[n], depth + 1) !in kinds
    ensures var shape := Shape(lib, Array(vs), depth);
            && shape.Array? && Sorted(lib, shape.items)
            && multiset(shape.items)
               == multiset(kinds) + if n < |vs| && n < 256 then multiset{Text(Ascii("variant_limit"))} else multiset{}
  {
    hide SortByText, Variants, Sorted;
    kinds, n := VariantsAre(lib, vs, 0, depth + 1, []);
    SortSorts(lib, Variants(lib, vs, 0, depth + 1, []));
    assert Shape(lib, Array(vs), depth) == Array(SortByText(lib, Variants(lib, vs, 0, depth + 1, [])));
  }

  /** A map shows, under each key, the last entry that has it. */
  lemma {:induction false} LastEntry(entries: seq<Field>, key: Bytes) returns (i: nat)
    ensures match Lookup(MapOf(entries), key)
            case None => forall j :: 0 <= j < |entries| ==> entries[j].key != key
            case Some(v) =>
              && i < |entries| && entries[i] == Field(key, v)
              && forall j :: i < j < |entries| ==> entries[j].key != key
  {
    hide MapOf;
    i := 0;
    if entries == [] {
      NoEntries(key);
    } else {
      var n := |entries| - 1;
      i := LastEntry(entries[..n], key);
      assert entries == entries[..n] + [entries[n]];
      Packet.LookupMapOf(entries[..n], entries[n], key);
      if entries[n].key == key {
        i := n;
      }
    }
  }

  lemma NoEntries(key: Bytes)
    ensures Lookup(MapOf([]), key) == None
  {
  }

  /** An object's shape has the shortened key of each of its first 256 fields, with the shape of the last field
      that has it, and a mark if there are more fields. */
  lemma ObjectShapeHolds(lib: Library, fs: seq<Field>, depth: nat, key: Bytes) returns (i: nat)
    requires depth < 16
    ensures var shape := Shape(lib, Object(fs), depth);
            && shape.Object?
            && var found := Lookup(shape.fields, key);
               if |fs| > 256 && key == Ascii("$truncated") then found == Some(Bool(true))
               else if found.None? then forall j :: 0 <= j < Looked(fs) ==> ShortKey(fs[j].key) != key
               else
                 && i < Looked(fs) && ShortKey(fs[i].key) == key && found.value == Shape(lib, fs[i].value, depth + 1)
                 && forall j :: i < j < Looked(fs) ==> ShortKey(fs[j].key) != key
  {
    hide ShortKey, MapOf, ShapeEntries;
    var entries := ShapeEntries(lib, fs, 0, depth + 1);
    EntriesAre(lib, fs, 0, depth + 1);
    i := LastEntry(entries, key);
    if |fs| > 256 {
      Packet.LookupMapOf(entries, Field(TRUNCATED, Bool(true)), key);
    } else {
      assert entries + Truncation(fs) == entries;
    }
    assert Shape(lib, Object(fs), depth) == Object(MapOf(entries + Truncation(fs)));
    forall j | 0 <= j < Looked(fs) ensures ShortKey(fs[j].key) == entries[j].key {
    }
  }

  /** The characters of valid text: its bytes that do not continue a character. */
  function Chars(s: Bytes): nat {
    if s == [] then 0 else (if 0x80 <= s[0] <= 0xBF then 0 else 1) + Chars(s[1..])
  }

  /** A key of at most 256 bytes stays as it is. A longer one is cut before the 257th character, if it has that
      many, and gets an ellipsis. */
  lemma ShortKeyHolds(key: Bytes) returns (n: nat)
    requires Utf8.Valid(key)
    ensures n <= |key|
    ensures ShortKey(key) == if |key| <= 256 then key else key[..n] + Ascii("...")
    ensures if n < |key| then Chars(key[..n]) == 256 && !(0x80 <= key[n] <= 0xBF) else Chars(key) <= 256
  {
    n := TakeCharsIs(key, 256);
  }

  lemma {:induction false} TakeCharsIs(s: Bytes, n: nat) returns (k: nat)
    requires Utf8.Valid(s)
    ensures k <= |s| && TakeChars(s, n) == s[..k]
    ensures if k < |s| then Chars(s[..k]) == n && !(0x80 <= s[k] <= 0xBF) else Chars(s) <= n
    decreases |s|
  {
    k := 0;
    if s != [] && n > 0 {
      var c := Utf8.First(s).len;
      var m := TakeCharsIs(s[c..], n - 1);
      k := c + m;
      assert s[..k] == s[..c] + s[c..][..m];
      assert s == s[..c] + s[c..];
      OneChar(s, s[c..][..m]);
      OneChar(s, s[c..]);
    }
  }

  /** One character and some text after it. */
  lemma OneChar(s: Bytes, more: Bytes)
    requires s != [] && Utf8.First(s).Good?
    ensures Chars(s[..Utf8.First(s).len] + more) == 1 + Chars(more)
  {
    var c := Utf8.First(s).len;
    var t := s[..c] + more;
    assert t[c..] == more;
    if c >= 2 {
      Continues(t, 1);
    }
    if c >= 3 {
      Continues(t, 2);
    }
    if c == 4 {
      Continues(t, 3);
    }
  }

  lemma Continues(s: Bytes, i: nat)
    requires i < |s| && 0x80 <= s[i] <= 0xBF
    ensures Chars(s[i..]) == Chars(s[i + 1..])
  {
    assert s[i..][1..] == s[i + 1..];
  }
}
