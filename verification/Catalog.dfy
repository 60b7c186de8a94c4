// The command catalog of src/proxy_capture.rs: per-command counters, response codes and type shapes,
// under caps on commands, shapes and bytes that several counters keep together.
module Catalog {
  import opened Bytes
  import opened Bon
  import opened Inspection
  import opened Sums
  import Shapes

  const MAX_COMMANDS := 4096
  const MAX_LIST := 32
  const MAX_CODES := 64
  const MAX_SHAPES := 4096
  const MAX_SCHEMA_BYTES := 16 * 1024 * 1024
  const MAX_SHAPE_BYTES := 64 * 1024

  datatype Kind = RequestKind | ResponseKind | PushKind

  datatype Summary = Summary(
    requests: nat, responses: nat, pushes: nat, codes: map<int, nat>,
    requestShapes: seq<Value>, responseShapes: seq<Value>, pushShapes: seq<Value>, overflowShapes: nat)
  {
    function ShapesOf(kind: Kind): seq<Value> {
      match kind
      case RequestKind => requestShapes
      case ResponseKind => responseShapes
      case PushKind => pushShapes
    }

    function Push(kind: Kind, shape: Value): Summary {
      match kind
      case RequestKind => this.(requestShapes := requestShapes + [shape])
      case ResponseKind => this.(responseShapes := responseShapes + [shape])
      case PushKind => this.(pushShapes := pushShapes + [shape])
    }

    /** add_response_code: a new code is dropped once there are 64. */
    function AddCode(code: int): Summary {
      if code in codes then this.(codes := codes[code := codes[code] + 1])
      else if |codes| < MAX_CODES then this.(codes := codes[code := 1])
      else this
    }

    function AddCodeIfAny(code: Option<int>): Summary { if code.Some? then AddCode(code.value) else this }
  }

  const NEW_SUMMARY := Summary(0, 0, 0, map[], [], [], [], 0)

  datatype Ledger = Ledger(
    unmatched: nat, overflowCommands: nat, overflowShapes: nat, shapeCount: nat, schemaBytes: nat,
    commands: map<Bytes, Summary>)

  const EMPTY_CATALOG := Ledger(0, 0, 0, 0, 0, map[])

  // ---------------------------------------------------------------- one event

  /** The command is known or there is room for one more. */
  predicate Room(s: Ledger, cmd: Bytes) { cmd in s.commands || |s.commands| < MAX_COMMANDS }

  function SummaryOf(s: Ledger, cmd: Bytes): Summary {
    if cmd in s.commands then s.commands[cmd] else NEW_SUMMARY
  }

  function Overflow(s: Ledger): Ledger { s.(overflowCommands := s.overflowCommands + 1) }

  /** Whether one more shape of that many bytes would break a cap. */
  predicate OverLimit(s: Ledger, shapes: seq<Value>, size: nat) {
    || |shapes| >= MAX_LIST
    || size > MAX_SHAPE_BYTES
    || s.shapeCount >= MAX_SHAPES
    || s.schemaBytes + size > MAX_SCHEMA_BYTES
  }

  /** Sets the summary of a command, whose body's shape is then recorded. */
  function Store(lib: Library, s: Ledger, cmd: Bytes, sum: Summary, kind: Kind, body: Option<Value>): Ledger {
    if body.None? then s.(commands := s.commands[cmd := sum])
    else
      var shape := Shapes.Shape(lib, body.value, 0);
      if shape in sum.ShapesOf(kind) then s.(commands := s.commands[cmd := sum])
      else
        var size := |lib.display(shape)|;
        if OverLimit(s, sum.ShapesOf(kind), size) then
          s.(overflowShapes := s.overflowShapes + 1,
             commands := s.commands[cmd := sum.(overflowShapes := sum.overflowShapes + 1)])
        else
          s.(shapeCount := s.shapeCount + 1, schemaBytes := s.schemaBytes + size,
             commands := s.commands[cmd := sum.Push(kind, shape)])
  }

  function OnRequest(lib: Library, s: Ledger, cmd: Bytes, e: Event): Ledger {
    if !Room(s, cmd) then Overflow(s)
    else
      var sum := SummaryOf(s, cmd);
      Store(lib, s, cmd, sum.(requests := sum.requests + 1), RequestKind, e.body)
  }

  function OnResponse(lib: Library, s: Ledger, cmd: Bytes, e: Event): Ledger {
    if !Room(s, cmd) then Overflow(s)
    else
      var sum := SummaryOf(s, cmd);
      Store(lib, s, cmd, sum.(responses := sum.responses + 1).AddCodeIfAny(e.code), ResponseKind, e.body)
  }

  function OnPush(lib: Library, s: Ledger, cmd: Bytes, e: Event): Ledger {
    if !Room(s, cmd) then Overflow(s)
    else
      var sum := SummaryOf(s, cmd);
      Store(lib, s, cmd, sum.(pushes := sum.pushes + 1).AddCodeIfAny(e.code), PushKind, e.body)
  }

  function Observed(lib: Library, s: Ledger, e: Event): Ledger {
    if e.decodeError.Some? || !e.binary then s
    else
      match e.direction
      case ClientToServer => if e.seqNo == 0 || e.cmd.None? then s else OnRequest(lib, s, e.cmd.value, e)
      case ServerToClient =>
        if e.resp > 0 then
          if e.matched.None? then s.(unmatched := s.unmatched + 1)
          else OnResponse(lib, s, e.matched.value, e)
        else if e.cmd.None? then s
        else OnPush(lib, s, e.cmd.value, e)
  }

  class CommandCatalog {
    var unmatched: nat
    var overflowCommands: nat
    var overflowShapes: nat
    var shapeCount: nat
    var schemaBytes: nat
    var commands: map<Bytes, Summary>

    function Contents(): Ledger
      reads this
    {
      Ledger(unmatched, overflowCommands, overflowShapes, shapeCount, schemaBytes, commands)
    }

    constructor ()
      ensures Contents() == EMPTY_CATALOG
    {
      unmatched, overflowCommands, overflowShapes, shapeCount, schemaBytes := 0, 0, 0, 0, 0;
      commands := map[];
    }

    /** ensure_command */
    method EnsureCommand(cmd: Bytes) returns (ok: bool)
      modifies this
      ensures ok == Room(old(Contents()), cmd)
      ensures !ok ==> Contents() == Overflow(old(Contents()))
      ensures ok ==> Contents() == old(Contents()).(
                       commands := old(commands)[cmd := SummaryOf(old(Contents()), cmd)])
    {
      if cmd !in commands && |commands| >= MAX_COMMANDS {
        overflowCommands := overflowCommands + 1;
        return false;
      }
      if cmd !in commands {
        commands := commands[cmd := NEW_SUMMARY];
      } else {
        assert commands[cmd := commands[cmd]] == commands;
      }
      return true;
    }

    /** record_shape */
    method RecordShape(lib: Library, cmd: Bytes, kind: Kind, body: Option<Value>)
      requires cmd in commands
      modifies this
      ensures Contents() == Store(lib, old(Contents()), cmd, old(commands)[cmd], kind, body)
    {
      hide Shapes.Shape;
      assert commands[cmd := commands[cmd]] == commands;
      if body.None? {
        return;
      }
      var shape := Shapes.ValueShape(lib, body.value, 0);
      var sum := commands[cmd];
      var shapes := sum.ShapesOf(kind);
      if shape in shapes {
        return;
      }
      var size := |lib.display(shape)|;
      if OverLimit(Contents(), shapes, size) {
        overflowShapes := overflowShapes + 1;
        commands := commands[cmd := sum.(overflowShapes := sum.overflowShapes + 1)];
        return;
      }
      shapeCount := shapeCount + 1;
      schemaBytes := schemaBytes + size;
      commands := commands[cmd := sum.Push(kind, shape)];
    }

    /** observe */
    method Observe(lib: Library, e: Event)
      modifies this
      ensures Contents() == Observed(lib, old(Contents()), e)
    {
      hide Shapes.Shape;
      if e.decodeError.Some? || !e.binary {
        return;
      }
      match e.direction
      case ClientToServer =>
        if e.seqNo == 0 || e.cmd.None? {
          return;
        }
        var cmd := e.cmd.value;
        var ok := EnsureCommand(cmd);
        if ok {
          var sum := commands[cmd];
          commands := commands[cmd := sum.(requests := sum.requests + 1)];
          Recorded(lib, old(Contents()), Contents(), cmd, RequestKind, e.body);
          RecordShape(lib, cmd, RequestKind, e.body);
        }
      case ServerToClient =>
        if e.resp > 0 {
          if e.matched.None? {
            unmatched := unmatched + 1;
            return;
          }
          var cmd := e.matched.value;
          var ok := EnsureCommand(cmd);
          if ok {
            var sum := commands[cmd];
            commands := commands[cmd := sum.(responses := sum.responses + 1).AddCodeIfAny(e.code)];
            Recorded(lib, old(Contents()), Contents(), cmd, ResponseKind, e.body);
            RecordShape(lib, cmd, ResponseKind, e.body);
          }
        } else if e.cmd.Some? {
          var cmd := e.cmd.value;
          var ok := EnsureCommand(cmd);
          if ok {
            var sum := commands[cmd];
            commands := commands[cmd := sum.(pushes := sum.pushes + 1).AddCodeIfAny(e.code)];
            Recorded(lib, old(Contents()), Contents(), cmd, PushKind, e.body);
            RecordShape(lib, cmd, PushKind, e.body);
          }
        }
    }
  }

  /** Recording after the summary was stored is recording together with it. */
  lemma Recorded(lib: Library, before: Ledger, s: Ledger, cmd: Bytes, kind: Kind, body: Option<Value>)
    requires cmd in s.commands && s == before.(commands := s.commands)
    requires s.commands == before.commands[cmd := s.commands[cmd]]
    ensures Store(lib, s, cmd, s.commands[cmd], kind, body) == Store(lib, before, cmd, s.commands[cmd], kind, body)
  {
    hide Shapes.Shape;
    var after := Store(lib, s, cmd, s.commands[cmd], kind, body).commands;
    assert after == s.commands[cmd := after[cmd]] == before.commands[cmd := after[cmd]];
  }

  // ---------------------------------------------------------------- the invariant

  function Id(n: nat): nat { n }
  function ListBytes(lib: Library, shapes: seq<Value>): nat {
    if shapes == [] then 0
    else ListBytes(lib, shapes[..|shapes| - 1]) + |lib.display(shapes[|shapes| - 1])|
  }

  function ShapesIn(sum: Summary): nat { |sum.requestShapes| + |sum.responseShapes| + |sum.pushShapes| }
  function BytesIn(lib: Library, sum: Summary): nat {
    ListBytes(lib, sum.requestShapes) + ListBytes(lib, sum.responseShapes) + ListBytes(lib, sum.pushShapes)
  }
  function OverflowIn(sum: Summary): nat { sum.overflowShapes }
  function RequestsIn(sum: Summary): nat { sum.requests }
  function ResponsesIn(sum: Summary): nat { sum.responses }
  function PushesIn(sum: Summary): nat { sum.pushes }

  /** BytesIn as a function of the summary alone. */
  function Sizer(lib: Library): Summary -> nat { (sum: Summary) => BytesIn(lib, sum) }

  ghost predicate GoodList(lib: Library, shapes: seq<Value>) {
    && |shapes| <= MAX_LIST
    && Shapes.NoRepeats(shapes)
    && forall i :: 0 <= i < |shapes| ==>
         |lib.display(shapes[i])| <= MAX_SHAPE_BYTES && Shapes.BoundedShape(shapes[i], Shapes.MAX_SHAPE_DEPTH)
  }

  ghost predicate GoodLists(lib: Library, sum: Summary) {
    && GoodList(lib, sum.requestShapes)
    && GoodList(lib, sum.responseShapes)
    && GoodList(lib, sum.pushShapes)
  }

  /** At most 64 codes, which together count no more than the responses and pushes. */
  ghost predicate GoodCodes(sum: Summary) {
    && |sum.codes| <= MAX_CODES
    && Total(sum.codes, Id) <= sum.responses + sum.pushes
  }

  ghost predicate GoodSummary(lib: Library, sum: Summary) { GoodLists(lib, sum) && GoodCodes(sum) }

  /** The caps, and the counters as the sums they stand for. */
  ghost predicate Valid(lib: Library, s: Ledger) {
    && |s.commands| <= MAX_COMMANDS
    && s.shapeCount == Total(s.commands, ShapesIn) <= MAX_SHAPES
    && s.schemaBytes == Total(s.commands, Sizer(lib)) <= MAX_SCHEMA_BYTES
    && s.overflowShapes == Total(s.commands, OverflowIn)
    && forall cmd :: cmd in s.commands ==> GoodSummary(lib, s.commands[cmd])
  }

  lemma EmptyIsValid(lib: Library)
    ensures Valid(lib, EMPTY_CATALOG)
  {
  }

  lemma NewSummaryIsGood(lib: Library)
    ensures GoodSummary(lib, NEW_SUMMARY)
    ensures ShapesIn(NEW_SUMMARY) == BytesIn(lib, NEW_SUMMARY) == OverflowIn(NEW_SUMMARY) == 0
  {
  }

  /** A reply's code is counted once, unless it is the sixty-fifth code of its command. */
  lemma AddCodeIsGood(sum: Summary, code: Option<int>)
    requires |sum.codes| <= MAX_CODES && Total(sum.codes, Id) < sum.responses + sum.pushes
    ensures GoodCodes(sum.AddCodeIfAny(code))
    ensures Total(sum.AddCodeIfAny(code).codes, Id)
            == Total(sum.codes, Id)
               + if code.Some? && (code.value in sum.codes || |sum.codes| < MAX_CODES) then 1 else 0
  {
    if code.Some? {
      var c := code.value;
      TotalAfter(sum.codes, Id, c, (if c in sum.codes then sum.codes[c] else 0) + 1);
      assert c in sum.codes ==> sum.codes[c := sum.codes[c] + 1].Keys == sum.codes.Keys;
    }
  }

  /** Replacing one summary and moving the three counters along with it. */
  lemma ReplaceIsValid(lib: Library, s: Ledger, t: Ledger, cmd: Bytes)
    requires Valid(lib, s) && Room(s, cmd) && cmd in t.commands && GoodSummary(lib, t.commands[cmd])
    requires t.commands == s.commands[cmd := t.commands[cmd]]
    requires var was, now := SummaryOf(s, cmd), t.commands[cmd];
             && t.shapeCount == s.shapeCount - ShapesIn(was) + ShapesIn(now) <= MAX_SHAPES
             && t.schemaBytes == s.schemaBytes - BytesIn(lib, was) + BytesIn(lib, now) <= MAX_SCHEMA_BYTES
             && t.overflowShapes == s.overflowShapes - OverflowIn(was) + OverflowIn(now)
    ensures Valid(lib, t)
  {
    hide GoodSummary, Total, ShapesIn, BytesIn, OverflowIn, Sizer;
    TotalsAfter(lib, s, cmd, t.commands[cmd]);
    KeysAfter(s, cmd, t.commands[cmd]);
  }

  lemma TotalsAfter(lib: Library, s: Ledger, cmd: Bytes, now: Summary)
    ensures var was, m := SummaryOf(s, cmd), s.commands[cmd := now];
            && Total(m, ShapesIn) == Total(s.commands, ShapesIn) - ShapesIn(was) + ShapesIn(now)
            && Total(m, Sizer(lib)) == Total(s.commands, Sizer(lib)) - BytesIn(lib, was) + BytesIn(lib, now)
            && Total(m, OverflowIn) == Total(s.commands, OverflowIn) - OverflowIn(was) + OverflowIn(now)
  {
    hide Total, ShapesIn, BytesIn, OverflowIn;
    NewSummaryIsGood(lib);
    TotalAfter(s.commands, ShapesIn, cmd, now);
    TotalAfter(s.commands, Sizer(lib), cmd, now);
    TotalAfter(s.commands, OverflowIn, cmd, now);
  }

  lemma KeysAfter(s: Ledger, cmd: Bytes, now: Summary)
    requires Room(s, cmd) && |s.commands| <= MAX_COMMANDS
    ensures |s.commands[cmd := now]| <= MAX_COMMANDS
  {
    assert s.commands[cmd := now].Keys == s.commands.Keys + {cmd};
    assert cmd in s.commands ==> s.commands[cmd := now].Keys == s.commands.Keys;
  }

  /** Storing a summary that differs from the present one in its counters and codes only. */
  lemma StoreIsValid(lib: Library, s: Ledger, cmd: Bytes, sum: Summary, kind: Kind, body: Option<Value>)
    requires Valid(lib, s) && Room(s, cmd) && GoodSummary(lib, sum)
    requires var was := SummaryOf(s, cmd);
             && sum.requestShapes == was.requestShapes && sum.responseShapes == was.responseShapes
             && sum.pushShapes == was.pushShapes && sum.overflowShapes == was.overflowShapes
    ensures Valid(lib, Store(lib, s, cmd, sum, kind, body))
  {
    hide Shapes.Shape, Valid, GoodSummary;
    var stored := s.(commands := s.commands[cmd := sum]);
    assert Valid(lib, stored) by {
      SetIsValid(lib, s, cmd, sum);
    }
    Recorded(lib, s, stored, cmd, kind, body);
    RecordIsValid(lib, stored, cmd, kind, body);
  }

  lemma SetIsValid(lib: Library, s: Ledger, cmd: Bytes, sum: Summary)
    requires Valid(lib, s) && Room(s, cmd) && GoodSummary(lib, sum)
    requires var was := SummaryOf(s, cmd);
             && sum.requestShapes == was.requestShapes && sum.responseShapes == was.responseShapes
             && sum.pushShapes == was.pushShapes && sum.overflowShapes == was.overflowShapes
    ensures Valid(lib, s.(commands := s.commands[cmd := sum]))
  {
    hide GoodSummary, Total;
    ReplaceIsValid(lib, s, s.(commands := s.commands[cmd := sum]), cmd);
  }

  lemma RecordIsValid(lib: Library, s: Ledger, cmd: Bytes, kind: Kind, body: Option<Value>)
    requires Valid(lib, s) && cmd in s.commands
    ensures Valid(lib, Store(lib, s, cmd, s.commands[cmd], kind, body))
  {
    hide Shapes.Shape, Shapes.BoundedShape, GoodSummary, Total, BytesIn, ShapesIn;
    var sum := s.commands[cmd];
    var t := Store(lib, s, cmd, sum, kind, body);
    assert s.commands[cmd := sum] == s.commands;
    if body.Some? {
      var shape := Shapes.Shape(lib, body.value, 0);
      Shapes.ShapeIsBounded(lib, body.value, 0);
      if shape !in sum.ShapesOf(kind) {
        if OverLimit(s, sum.ShapesOf(kind), |lib.display(shape)|) {
          OverflowIsGood(lib, sum);
        } else {
          PushIsGood(lib, sum, kind, shape);
        }
        ReplaceIsValid(lib, s, t, cmd);
      }
    }
  }

  lemma OverflowIsGood(lib: Library, sum: Summary)
    requires GoodSummary(lib, sum)
    ensures GoodSummary(lib, sum.(overflowShapes := sum.overflowShapes + 1))
    ensures BytesIn(lib, sum.(overflowShapes := sum.overflowShapes + 1)) == BytesIn(lib, sum)
    ensures ShapesIn(sum.(overflowShapes := sum.overflowShapes + 1)) == ShapesIn(sum)
  {
    hide GoodList;
  }

  lemma PushIsGood(lib: Library, sum: Summary, kind: Kind, shape: Value)
    requires GoodSummary(lib, sum) && shape !in sum.ShapesOf(kind) && |sum.ShapesOf(kind)| < MAX_LIST
    requires |lib.display(shape)| <= MAX_SHAPE_BYTES && Shapes.BoundedShape(shape, Shapes.MAX_SHAPE_DEPTH)
    ensures GoodSummary(lib, sum.Push(kind, shape))
    ensures BytesIn(lib, sum.Push(kind, shape)) == BytesIn(lib, sum) + |lib.display(shape)|
    ensures ShapesIn(sum.Push(kind, shape)) == ShapesIn(sum) + 1
    ensures sum.Push(kind, shape).overflowShapes == sum.overflowShapes
  {
    hide Shapes.BoundedShape;
    var list := sum.ShapesOf(kind);
    assert (list + [shape])[..|list|] == list;
  }

  /** Every event keeps the invariant. */
  lemma ObserveKeepsValid(lib: Library, s: Ledger, e: Event)
    requires Valid(lib, s)
    ensures Valid(lib, Observed(lib, s, e))
  {
    hide Store, Valid, GoodSummary, OnRequest, OnResponse, OnPush;
    if Accepted(e) {
      if CountedUnder(e).None? {
        CountersKeepValid(lib, s);
      } else {
        CountedKeepsValid(lib, s, CountedUnder(e).value, e);
      }
    }
  }

  lemma CountersKeepValid(lib: Library, s: Ledger)
    requires Valid(lib, s)
    ensures Valid(lib, s.(unmatched := s.unmatched + 1)) && Valid(lib, Overflow(s))
  {
    hide Total, GoodSummary;
  }

  lemma CountedKeepsValid(lib: Library, s: Ledger, cmd: Bytes, e: Event)
    requires Valid(lib, s)
    ensures Valid(lib, OnRequest(lib, s, cmd, e))
    ensures Valid(lib, OnResponse(lib, s, cmd, e))
    ensures Valid(lib, OnPush(lib, s, cmd, e))
  {
    hide Store, Total, Valid, GoodSummary;
    CountersKeepValid(lib, s);
    if Room(s, cmd) {
      var sum := SummaryOf(s, cmd);
      assert GoodSummary(lib, sum) by {
        SummaryIsGood(lib, s, cmd);
      }
      CountersAreGood(lib, sum, e.code);
      StoreIsValid(lib, s, cmd, sum.(requests := sum.requests + 1), RequestKind, e.body);
      StoreIsValid(lib, s, cmd, sum.(responses := sum.responses + 1).AddCodeIfAny(e.code), ResponseKind, e.body);
      StoreIsValid(lib, s, cmd, sum.(pushes := sum.pushes + 1).AddCodeIfAny(e.code), PushKind, e.body);
    }
  }

  lemma SummaryIsGood(lib: Library, s: Ledger, cmd: Bytes)
    requires Valid(lib, s)
    ensures GoodSummary(lib, SummaryOf(s, cmd))
  {
    NewSummaryIsGood(lib);
  }

  lemma CountersAreGood(lib: Library, sum: Summary, code: Option<int>)
    requires GoodSummary(lib, sum)
    ensures GoodSummary(lib, sum.(requests := sum.requests + 1))
    ensures GoodSummary(lib, sum.(responses := sum.responses + 1).AddCodeIfAny(code))
    ensures GoodSummary(lib, sum.(pushes := sum.pushes + 1).AddCodeIfAny(code))
  {
    hide GoodList;
    AddCodeIsGood(sum.(responses := sum.responses + 1), code);
    AddCodeIsGood(sum.(pushes := sum.pushes + 1), code);
  }

  // ---------------------------------------------------------------- every accepted event is counted once

  datatype Tally = Tally(requests: nat, responses: nat, pushes: nat, unmatched: nat, overflow: nat) {
    function Sum(): nat { requests + responses + pushes + unmatched + overflow }
  }

  ghost function TallyOf(s: Ledger): Tally {
    Tally(Total(s.commands, RequestsIn), Total(s.commands, ResponsesIn), Total(s.commands, PushesIn),
          s.unmatched, s.overflowCommands)
  }

  /** A decoded binary frame that is a numbered request with a command, a response, or a push. */
  predicate Accepted(e: Event) {
    && e.decodeError.None? && e.binary
    && (e.direction == ClientToServer ==> e.seqNo > 0 && e.cmd.Some?)
    && (e.direction == ServerToClient ==> e.resp > 0 || e.cmd.Some?)
  }

  /** The command an accepted event is counted under; a response goes under its request's command. */
  function CountedUnder(e: Event): Option<Bytes> {
    if e.direction == ServerToClient && e.resp > 0 then e.matched else e.cmd
  }

  /** Where one accepted event is counted: exactly one counter goes up by one. */
  lemma ObserveCountsOnce(lib: Library, s: Ledger, e: Event)
    ensures !Accepted(e) ==> Observed(lib, s, e) == s
    ensures Accepted(e) ==>
              var t := TallyOf(s);
              var cmd := CountedUnder(e);
              TallyOf(Observed(lib, s, e))
              == if cmd.None? then t.(unmatched := t.unmatched + 1)
                 else if !Room(s, cmd.value) then t.(overflow := t.overflow + 1)
                 else if e.direction == ClientToServer then t.(requests := t.requests + 1)
                 else if e.resp > 0 then t.(responses := t.responses + 1)
                 else t.(pushes := t.pushes + 1)
  {
    hide Total, OnRequest, OnResponse, OnPush, Room;
    if Accepted(e) && CountedUnder(e).Some? {
      CountedOnce(lib, s, CountedUnder(e).value, e);
    }
  }

  lemma CountedOnce(lib: Library, s: Ledger, cmd: Bytes, e: Event)
    ensures var t, room := TallyOf(s), Room(s, cmd);
            && TallyOf(OnRequest(lib, s, cmd, e))
               == (if room then t.(requests := t.requests + 1) else t.(overflow := t.overflow + 1))
            && TallyOf(OnResponse(lib, s, cmd, e))
               == (if room then t.(responses := t.responses + 1) else t.(overflow := t.overflow + 1))
            && TallyOf(OnPush(lib, s, cmd, e))
               == (if room then t.(pushes := t.pushes + 1) else t.(overflow := t.overflow + 1))
  {
    hide Store, TallyOf;
    OverflowCounts(s);
    var sum := SummaryOf(s, cmd);
    StoreCounts(lib, s, cmd, sum.(requests := sum.requests + 1), RequestKind, e.body);
    StoreCounts(lib, s, cmd, sum.(responses := sum.responses + 1).AddCodeIfAny(e.code), ResponseKind, e.body);
    StoreCounts(lib, s, cmd, sum.(pushes := sum.pushes + 1).AddCodeIfAny(e.code), PushKind, e.body);
  }

  lemma OverflowCounts(s: Ledger)
    ensures TallyOf(Overflow(s)) == TallyOf(s).(overflow := s.overflowCommands + 1)
    ensures TallyOf(s).overflow == s.overflowCommands
  {
  }

  lemma StoreCounts(lib: Library, s: Ledger, cmd: Bytes, sum: Summary, kind: Kind, body: Option<Value>)
    ensures var t, was, now := TallyOf(s), SummaryOf(s, cmd), TallyOf(Store(lib, s, cmd, sum, kind, body));
            && now.requests + was.requests == t.requests + sum.requests
            && now.responses + was.responses == t.responses + sum.responses
            && now.pushes + was.pushes == t.pushes + sum.pushes
            && now.unmatched == t.unmatched && now.overflow == t.overflow
  {
    hide Shapes.Shape, Total;
    var now := Store(lib, s, cmd, sum, kind, body).commands[cmd];
    TotalAfter(s.commands, RequestsIn, cmd, now);
    TotalAfter(s.commands, ResponsesIn, cmd, now);
    TotalAfter(s.commands, PushesIn, cmd, now);
  }

  // ---------------------------------------------------------------- whole runs

  /** The catalog after a sequence of events. */
  function Run(lib: Library, events: seq<Event>): Ledger {
    if events == [] then EMPTY_CATALOG
    else Observed(lib, Run(lib, events[..|events| - 1]), events[|events| - 1])
  }

  function AcceptedIn(events: seq<Event>): nat {
    if events == [] then 0
    else AcceptedIn(events[..|events| - 1]) + if Accepted(events[|events| - 1]) then 1 else 0
  }

  /** After any events the caps hold, the counters are the sums they stand for, and the five tallies
      add up to the number of accepted events. */
  lemma {:induction false} CatalogInvariant(lib: Library, events: seq<Event>)
    ensures Valid(lib, Run(lib, events))
    ensures TallyOf(Run(lib, events)).Sum() == AcceptedIn(events)
  {
    hide Valid, TallyOf, Observed, Accepted;
    if events == [] {
      EmptyIsValid(lib);
      NothingCounted();
    } else {
      var n := |events| - 1;
      CatalogInvariant(lib, events[..n]);
      ObserveKeepsValid(lib, Run(lib, events[..n]), events[n]);
      ObserveCountsOnce(lib, Run(lib, events[..n]), events[n]);
    }
  }

  lemma NothingCounted()
    ensures TallyOf(EMPTY_CATALOG).Sum() == 0
  {
  }

  // ---------------------------------------------------------------- what is stored, and where

  /** One of the four caps would be broken by a shape of that many bytes in a list of that length. */
  predicate CapBroken(s: Ledger, length: nat, size: nat) {
    length >= 32 || size > 65_536 || s.shapeCount >= 4096 || s.schemaBytes + size > 16_777_216
  }

  /** A list after a shape was offered to it: it was there, or it is appended and counted with its bytes, or a
      cap would break and both overflow counters rise. */
  predicate StoredOrCounted(lib: Library, s: Ledger, t: Ledger, before: seq<Value>, after: seq<Value>,
                            overflow: int, body: Option<Value>)
  {
    if body.None? || Shapes.Shape(lib, body.value, 0) in before then
      after == before && overflow == 0
      && t.overflowShapes == s.overflowShapes && t.shapeCount == s.shapeCount && t.schemaBytes == s.schemaBytes
    else
      var shape := Shapes.Shape(lib, body.value, 0);
      var size := |lib.display(shape)|;
      if CapBroken(s, |before|, size) then
        after == before && overflow == 1 && t.overflowShapes == s.overflowShapes + 1
        && t.shapeCount == s.shapeCount && t.schemaBytes == s.schemaBytes
      else
        after == before + [shape] && overflow == 0 && t.overflowShapes == s.overflowShapes
        && t.shapeCount == s.shapeCount + 1 && t.schemaBytes == s.schemaBytes + size
  }

  /** A reply's code counts one more, unless it is new and 64 are known. */
  predicate CodeCounted(before: map<int, nat>, after: map<int, nat>, code: Option<int>) {
    if code.None? || (code.value !in before && |before| >= 64) then after == before
    else after == before[code.value := (if code.value in before then before[code.value] else 0) + 1]
  }

  lemma StoreIsExact(lib: Library, s: Ledger, cmd: Bytes, sum: Summary, kind: Kind, body: Option<Value>)
    ensures var t := Store(lib, s, cmd, sum, kind, body);
            && cmd in t.commands && t.commands == s.commands[cmd := t.commands[cmd]]
            && t.unmatched == s.unmatched && t.overflowCommands == s.overflowCommands
            && var now := t.commands[cmd];
               && now.requests == sum.requests && now.responses == sum.responses && now.pushes == sum.pushes
               && now.codes == sum.codes
               && StoredOrCounted(lib, s, t, sum.ShapesOf(kind), now.ShapesOf(kind),
                                  now.overflowShapes - sum.overflowShapes, body)
               && (kind.RequestKind? || now.requestShapes == sum.requestShapes)
               && (kind.ResponseKind? || now.responseShapes == sum.responseShapes)
               && (kind.PushKind? || now.pushShapes == sum.pushShapes)
  {
    hide Shapes.Shape;
  }

  lemma AddCodeIsExact(sum: Summary, code: Option<int>)
    ensures CodeCounted(sum.codes, sum.AddCodeIfAny(code).codes, code)
    ensures sum.AddCodeIfAny(code) == sum.(codes := sum.AddCodeIfAny(code).codes)
  {
  }

  /** An event counted under a command with room changes that command only: one of its counters, its codes when
      it is a reply or a push, and the list of its kind, which takes the body's shape unless a cap would break. */
  lemma ObserveIsExact(lib: Library, s: Ledger, e: Event)
    requires Accepted(e) && CountedUnder(e).Some?
    requires CountedUnder(e).value in s.commands || |s.commands| < 4096
    ensures var cmd := CountedUnder(e).value;
            var t := Observed(lib, s, e);
            && cmd in t.commands && t.commands == s.commands[cmd := t.commands[cmd]]
            && t.unmatched == s.unmatched && t.overflowCommands == s.overflowCommands
            && var was := if cmd in s.commands then s.commands[cmd] else Summary(0, 0, 0, map[], [], [], [], 0);
               var now := t.commands[cmd];
               var over := now.overflowShapes - was.overflowShapes;
               if e.direction == ClientToServer then
                 && now.requests == was.requests + 1 && now.responses == was.responses && now.pushes == was.pushes
                 && now.codes == was.codes
                 && now.responseShapes == was.responseShapes && now.pushShapes == was.pushShapes
                 && StoredOrCounted(lib, s, t, was.requestShapes, now.requestShapes, over, e.body)
               else if e.resp > 0 then
                 && now.requests == was.requests && now.responses == was.responses + 1 && now.pushes == was.pushes
                 && CodeCounted(was.codes, now.codes, e.code)
                 && now.requestShapes == was.requestShapes && now.pushShapes == was.pushShapes
                 && StoredOrCounted(lib, s, t, was.responseShapes, now.responseShapes, over, e.body)
               else
                 && now.requests == was.requests && now.responses == was.responses && now.pushes == was.pushes + 1
                 && CodeCounted(was.codes, now.codes, e.code)
                 && now.requestShapes == was.requestShapes && now.responseShapes == was.responseShapes
                 && StoredOrCounted(lib, s, t, was.pushShapes, now.pushShapes, over, e.body)
  {
    hide Store, StoredOrCounted, CodeCounted;
    var cmd := CountedUnder(e).value;
    var sum := SummaryOf(s, cmd);
    if e.direction == ClientToServer {
      StoreIsExact(lib, s, cmd, sum.(requests := sum.requests + 1), RequestKind, e.body);
    } else if e.resp > 0 {
      var counted := sum.(responses := sum.responses + 1);
      AddCodeIsExact(counted, e.code);
      StoreIsExact(lib, s, cmd, counted.AddCodeIfAny(e.code), ResponseKind, e.body);
    } else {
      var counted := sum.(pushes := sum.pushes + 1);
      AddCodeIsExact(counted, e.code);
      StoreIsExact(lib, s, cmd, counted.AddCodeIfAny(e.code), PushKind, e.body);
    }
  }

  /** Any other event stores nothing: it is ignored, or counted as unmatched or as one command too many. */
  lemma OthersStoreNothing(lib: Library, s: Ledger, e: Event)
    requires !Accepted(e) || CountedUnder(e).None?
             || (CountedUnder(e).value !in s.commands && |s.commands| >= 4096)
    ensures var t := Observed(lib, s, e);
            && t.commands == s.commands && t.overflowShapes == s.overflowShapes
            && t.shapeCount == s.shapeCount && t.schemaBytes == s.schemaBytes
            && t.unmatched == s.unmatched + (if Accepted(e) && CountedUnder(e).None? then 1 else 0)
            && t.overflowCommands == s.overflowCommands + (if Accepted(e) && CountedUnder(e).Some? then 1 else 0)
  {
    hide Store;
  }

  function KindOf(e: Event): Kind {
    if e.direction == ClientToServer then RequestKind else if e.resp > 0 then ResponseKind else PushKind
  }

  function ShapesUnder(s: Ledger, cmd: Bytes, kind: Kind): seq<Value> {
    if cmd !in s.commands then []
    else
      match kind
      case RequestKind => s.commands[cmd].requestShapes
      case ResponseKind => s.commands[cmd].responseShapes
      case PushKind => s.commands[cmd].pushShapes
  }

  /** An event of that command and kind whose body has that shape. */
  predicate Shows(lib: Library, e: Event, cmd: Bytes, kind: Kind, shape: Value) {
    && Accepted(e) && CountedUnder(e) == Some(cmd) && KindOf(e) == kind
    && e.body.Some? && Shapes.Shape(lib, e.body.value, 0) == shape
  }

  lemma ListsGrow(lib: Library, s: Ledger, e: Event, cmd: Bytes, kind: Kind)
    ensures var before, after := ShapesUnder(s, cmd, kind), ShapesUnder(Observed(lib, s, e), cmd, kind);
            && before <= after
            && (forall i :: |before| <= i < |after| ==> Shows(lib, e, cmd, kind, after[i]))
  {
    hide Shapes.Shape, Observed;
    if !Accepted(e) || CountedUnder(e).None? || (CountedUnder(e).value !in s.commands && |s.commands| >= 4096) {
      OthersStoreNothing(lib, s, e);
    } else {
      ObserveIsExact(lib, s, e);
    }
  }

  /** Over any events, every shape in the list of a command and kind is the shape of the body of an earlier
      event of that command and kind. */
  lemma {:induction false} StoredShapesWereSeen(lib: Library, events: seq<Event>, cmd: Bytes, kind: Kind, shape: Value)
    returns (i: nat)
    requires shape in ShapesUnder(Run(lib, events), cmd, kind)
    ensures i < |events| && Shows(lib, events[i], cmd, kind, shape)
  {
    hide Shows, Observed, ShapesUnder;
    if events == [] {
      NothingStored(lib, cmd, kind);
      assert false;
    } else {
      var n := |events| - 1;
      var before := ShapesUnder(Run(lib, events[..n]), cmd, kind);
      ListsGrow(lib, Run(lib, events[..n]), events[n], cmd, kind);
      if shape in before {
        i := StoredShapesWereSeen(lib, events[..n], cmd, kind, shape);
      } else {
        i := n;
      }
    }
  }

  lemma NothingStored(lib: Library, cmd: Bytes, kind: Kind)
    ensures ShapesUnder(Run(lib, []), cmd, kind) == []
  {
  }

  /** And over any events that overflowed nothing, the shape of every accepted event with a command and a body
      is in the list of its command and kind. */
  lemma {:induction false} SeenShapesAreStored(lib: Library, events: seq<Event>, i: nat, cmd: Bytes, kind: Kind,
                                               shape: Value)
    requires i < |events| && Shows(lib, events[i], cmd, kind, shape)
    requires Run(lib, events).overflowShapes == 0 && Run(lib, events).overflowCommands == 0
    ensures shape in ShapesUnder(Run(lib, events), cmd, kind)
  {
    hide Shows, Observed, ShapesUnder;
    var n := |events| - 1;
    var s, e := Run(lib, events[..n]), events[n];
    OverflowOnlyRises(lib, s, e);
    if i < n {
      SeenShapesAreStored(lib, events[..n], i, cmd, kind, shape);
      ListsGrow(lib, s, e, cmd, kind);
    } else {
      ShownIsStored(lib, s, e, cmd, kind, shape);
    }
  }

  lemma OverflowOnlyRises(lib: Library, s: Ledger, e: Event)
    ensures Observed(lib, s, e).overflowShapes >= s.overflowShapes
    ensures Observed(lib, s, e).overflowCommands >= s.overflowCommands
  {
    hide Shapes.Shape;
  }

  lemma ShownIsStored(lib: Library, s: Ledger, e: Event, cmd: Bytes, kind: Kind, shape: Value)
    requires Shows(lib, e, cmd, kind, shape)
    requires Observed(lib, s, e).overflowShapes == s.overflowShapes
    requires Observed(lib, s, e).overflowCommands == s.overflowCommands
    ensures shape in ShapesUnder(Observed(lib, s, e), cmd, kind)
  {
    hide Shapes.Shape, Observed;
    if cmd !in s.commands && |s.commands| >= 4096 {
      OthersStoreNothing(lib, s, e);
    } else {
      ObserveIsExact(lib, s, e);
    }
  }
}
