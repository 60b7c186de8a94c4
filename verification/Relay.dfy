// The relay of src/proxy.rs as a step system: any number of connections, two directions each, sharing
// a byte budget, a bounded capture queue and two drop counters.
module Relay {
  import opened Bytes
  import opened Sums
  import Inspection

  /** A message as the relay sees it: its payload size, whether it is a Close, and what it is. */
  datatype Message = Message(size: nat, isClose: bool, content: Bytes)

  datatype Lane = Lane(connection: nat, direction: Inspection.Direction)

  datatype Frame = Frame(lane: Lane, index: nat, message: Message)

  /** An empty message still costs one permit. */
  function Permits(m: Message): nat { if m.size == 0 then 1 else m.size }

  function PermitsOf(frames: seq<Frame>): nat {
    if frames == [] then 0 else PermitsOf(frames[..|frames| - 1]) + Permits(frames[|frames| - 1].message)
  }

  // ---------------------------------------------------------------- the shared capture side

  /** attached: there is a sender; open: its receiver lives. accepted lists every frame ever enqueued. */
  datatype Capture = Capture(
    attached: bool, open: bool, free: nat, capacity: nat, queueFull: nat, analyzerClosed: nat,
    queue: seq<Frame>, analyzing: seq<Frame>, accepted: seq<Frame>)

  /** What became of a frame; InFlight until it is enqueued, and for good if it is never forwarded. */
  datatype Fate = InFlight | Enqueued | QueueFull | AnalyzerClosed | TooLarge | Unobserved

  function PrepareFate(c: Capture, m: Message): Fate {
    if !c.attached then Unobserved
    else if !c.open then AnalyzerClosed
    else if Permits(m) >= TWO_32 then TooLarge
    else if c.free < Permits(m) then QueueFull
    else InFlight
  }

  function Prepared(c: Capture, m: Message): Capture {
    match PrepareFate(c, m)
    case AnalyzerClosed => c.(analyzerClosed := c.analyzerClosed + 1)
    case QueueFull => c.(queueFull := c.queueFull + 1)
    case InFlight => c.(free := c.free - Permits(m))
    case _ => c
  }

  function EnqueueFate(c: Capture): Fate {
    if !c.open then AnalyzerClosed else if |c.queue| >= c.capacity then QueueFull else Enqueued
  }

  /** try_send; a frame that is not taken is dropped and gives its permits back. */
  function Offered(c: Capture, f: Frame): Capture {
    if !c.open then c.(analyzerClosed := c.analyzerClosed + 1, free := c.free + Permits(f.message))
    else if |c.queue| >= c.capacity then c.(queueFull := c.queueFull + 1, free := c.free + Permits(f.message))
    else c.(queue := c.queue + [f], accepted := c.accepted + [f])
  }

  class CaptureSide {
    var attached: bool
    var open: bool
    var free: nat
    var capacity: nat
    var queueFull: nat
    var analyzerClosed: nat
    var queue: seq<Frame>
    ghost var analyzing: seq<Frame>
    ghost var accepted: seq<Frame>

    ghost function Contents(): Capture
      reads this
    {
      Capture(attached, open, free, capacity, queueFull, analyzerClosed, queue, analyzing, accepted)
    }

    constructor (attached: bool, budget: nat, capacity: nat)
      ensures Contents() == Capture(attached, true, budget, capacity, 0, 0, [], [], [])
    {
      this.attached, open, free, this.capacity := attached, true, budget, capacity;
      queueFull, analyzerClosed, queue, analyzing, accepted := 0, 0, [], [], [];
    }

    /** prepare_record */
    method PrepareRecord(lane: Lane, index: nat, message: Message) returns (observed: Option<Frame>)
      modifies this
      ensures Contents() == Prepared(old(Contents()), message)
      ensures observed == if PrepareFate(old(Contents()), message) == InFlight
                          then Some(Frame(lane, index, message)) else None
    {
      if !attached {
        return None;
      }
      if !open {
        analyzerClosed := analyzerClosed + 1;
        return None;
      }
      var payloadBytes := if message.size >= 1 then message.size else 1;
      if payloadBytes >= TWO_32 {
        return None;
      }
      if free < payloadBytes {
        queueFull := queueFull + 1;
        return None;
      }
      free := free - payloadBytes;
      return Some(Frame(lane, index, message));
    }

    /** enqueue_record */
    method EnqueueRecord(f: Frame)
      modifies this
      ensures Contents() == Offered(old(Contents()), f)
    {
      if !open {
        analyzerClosed := analyzerClosed + 1;
        free := free + Permits(f.message);
      } else if |queue| >= capacity {
        queueFull := queueFull + 1;
        free := free + Permits(f.message);
      } else {
        queue, accepted := queue + [f], accepted + [f];
      }
    }
  }

  // ---------------------------------------------------------------- one direction of one connection

  /** Where relay_direction is: before reading, inside forward_message, before enqueue_record, returned. */
  datatype Phase = Reading | Forwarding | Enqueuing | Ended

  /** fates[i] belongs to read[i]. forwarded: the messages forward_message returned Ok for; sent: those
      it handed to the writer, all but a Close that found the connection closed. */
  datatype Local = Local(
    phase: Phase, read: seq<Frame>, fates: seq<Fate>, forwarded: seq<Message>, sent: seq<Message>)
  {
    predicate Busy() { (phase == Forwarding || phase == Enqueuing) && read != [] && |fates| == |read| }

    function Last(): Frame
      requires read != []
    {
      read[|read| - 1]
    }
  }

  const STARTED := Local(Reading, [], [], [], [])

  datatype System = System(capture: Capture, next: map<nat, nat>, lanes: map<Lane, Local>)

  function LocalOf(s: System, lane: Lane): Local { if lane in s.lanes then s.lanes[lane] else STARTED }

  /** The next frame index of a connection; its counter starts at one. */
  function NextIndex(s: System, connection: nat): nat {
    if connection in s.next then s.next[connection] else 1
  }

  /** How forward_message ends; AlreadyClosed is a success without sending. */
  datatype Outcome = Sent | AlreadyClosed | Failed

  datatype Action =
    | Start(lane: Lane)
    | Read(lane: Lane, message: Message)
    | Forward(lane: Lane, outcome: Outcome)
    | Enqueue(lane: Lane)
    | Stop(lane: Lane)
    | Receive
    | Finish
    | CloseReceiver

  predicate In(s: System, lane: Lane, phase: Phase) { lane in s.lanes && s.lanes[lane].phase == phase }

  /** Which steps the code can take. Stop is a return of relay_direction while it awaits a frame, or the
      future being dropped at one of its two awaits. */
  predicate Enabled(s: System, a: Action) {
    match a
    case Start(lane) => lane !in s.lanes
    case Read(lane, _) => In(s, lane, Reading)
    case Forward(lane, outcome) =>
      In(s, lane, Forwarding) && s.lanes[lane].Busy()
      && (outcome == AlreadyClosed ==> s.lanes[lane].Last().message.isClose)
    case Enqueue(lane) => In(s, lane, Enqueuing) && s.lanes[lane].Busy()
    case Stop(lane) => In(s, lane, Reading) || (In(s, lane, Forwarding) && s.lanes[lane].Busy())
    case Receive => s.capture.queue != []
    case Finish => s.capture.analyzing != []
    case CloseReceiver => s.capture.open
  }

  function OnRead(s: System, lane: Lane, m: Message): System
    requires In(s, lane, Reading)
  {
    var l := s.lanes[lane];
    var i := NextIndex(s, lane.connection);
    s.(capture := Prepared(s.capture, m),
       next := s.next[lane.connection := i + 1],
       lanes := s.lanes[lane := l.(phase := Forwarding, read := l.read + [Frame(lane, i, m)],
                                   fates := l.fates + [PrepareFate(s.capture, m)])])
  }

  /** The permits of the last frame are held as long as it is in flight. */
  function Freed(c: Capture, l: Local): Capture
    requires l.Busy()
  {
    if l.fates[|l.fates| - 1] == InFlight then c.(free := c.free + Permits(l.Last().message)) else c
  }

  function AfterMessage(m: Message): Phase { if m.isClose then Ended else Reading }

  function OnForward(s: System, lane: Lane, outcome: Outcome): System
    requires lane in s.lanes && s.lanes[lane].Busy()
  {
    var l := s.lanes[lane];
    var m := l.Last().message;
    match outcome
    case Failed => s.(capture := Freed(s.capture, l), lanes := s.lanes[lane := l.(phase := Ended)])
    case _ =>
      s.(lanes := s.lanes[lane := l.(
           phase := if l.fates[|l.fates| - 1] == InFlight then Enqueuing else AfterMessage(m),
           forwarded := l.forwarded + [m],
           sent := if outcome == Sent then l.sent + [m] else l.sent)])
  }

  function OnEnqueue(s: System, lane: Lane): System
    requires lane in s.lanes && s.lanes[lane].Busy()
  {
    var l := s.lanes[lane];
    s.(capture := Offered(s.capture, l.Last()),
       lanes := s.lanes[lane := l.(phase := AfterMessage(l.Last().message),
                                   fates := l.fates[..|l.fates| - 1] + [EnqueueFate(s.capture)])])
  }

  function OnStop(s: System, lane: Lane): System
    requires lane in s.lanes && (s.lanes[lane].phase == Forwarding ==> s.lanes[lane].Busy())
  {
    var l := s.lanes[lane];
    s.(capture := if l.phase == Forwarding then Freed(s.capture, l) else s.capture,
       lanes := s.lanes[lane := l.(phase := Ended)])
  }

  /** One step of the analyzer: taking a frame off the queue, finishing it, or going away. */
  function Analyzer(c: Capture, a: Action): Capture
    requires a.Receive? ==> c.queue != []
    requires a.Finish? ==> c.analyzing != []
  {
    match a
    case Receive => c.(queue := c.queue[1..], analyzing := c.analyzing + [c.queue[0]])
    case Finish => c.(analyzing := c.analyzing[..|c.analyzing| - 1],
                      free := c.free + Permits(c.analyzing[|c.analyzing| - 1].message))
    case CloseReceiver => c.(open := false, queue := [], free := c.free + PermitsOf(c.queue))
    case _ => c
  }

  function Step(s: System, a: Action): System
    requires Enabled(s, a)
  {
    match a
    case Start(lane) => s.(lanes := s.lanes[lane := STARTED])
    case Read(lane, m) => OnRead(s, lane, m)
    case Forward(lane, outcome) => OnForward(s, lane, outcome)
    case Enqueue(lane) => OnEnqueue(s, lane)
    case Stop(lane) => OnStop(s, lane)
    case _ => s.(capture := Analyzer(s.capture, a))
  }

  function Initial(attached: bool, budget: nat, capacity: nat): System {
    System(Capture(attached, true, budget, capacity, 0, 0, [], [], []), map[], map[])
  }

  /** The system after a run, or nothing if some step was not enabled when taken. */
  function After(s: System, run: seq<Action>): Option<System> {
    if run == [] then Some(s)
    else
      var before := After(s, run[..|run| - 1]);
      var a := run[|run| - 1];
      if before.Some? && Enabled(before.value, a) then Some(Step(before.value, a)) else None
  }

  // ---------------------------------------------------------------- each direction by itself

  function Messages(frames: seq<Frame>): seq<Message> {
    if frames == [] then [] else Messages(frames[..|frames| - 1]) + [frames[|frames| - 1].message]
  }

  /** The frames still in flight, or lost with the failure that ended the direction: at most the last. */
  predicate LastInFlight(l: Local) { l.fates != [] && l.fates[|l.fates| - 1] == InFlight }

  predicate LastEnqueued(l: Local) { l.fates != [] && l.fates[|l.fates| - 1] == Enqueued }

  /** What a direction's own history looks like at any time, below the next index of its connection. */
  predicate GoodLane(lane: Lane, l: Local, next: nat) {
    && |l.fates| == |l.read|
    && (forall i :: 0 <= i < |l.fates| - 1 ==> l.fates[i] != InFlight)
    && GoodFrames(lane, l.read, next)
    && GoodProgress(l)
  }

  /** Frames of that direction with increasing indices; a Close is the last message read. */
  predicate GoodFrames(lane: Lane, read: seq<Frame>, next: nat) {
    && (forall i :: 0 <= i < |read| ==> read[i].lane == lane && 1 <= read[i].index < next)
    && (forall i, j :: 0 <= i < j < |read| ==> read[i].index < read[j].index)
    && (forall i :: 0 <= i < |read| - 1 ==> !read[i].message.isClose)
  }

  /** Everything read has been forwarded in order, except the last message while it is being forwarded or
      when it could not be; everything forwarded was sent, except at most a final Close. */
  predicate GoodProgress(l: Local)
    requires |l.fates| == |l.read|
  {
    var all := Messages(l.read);
    var allButLast := if l.read == [] then [] else Messages(l.read[..|l.read| - 1]);
    match l.phase
    case Reading =>
      l.forwarded == all && l.sent == all && !LastInFlight(l) && (l.read != [] ==> !l.Last().message.isClose)
    case Forwarding =>
      l.read != [] && l.forwarded == allButLast && l.sent == allButLast && !LastEnqueued(l)
    case Enqueuing =>
      LastInFlight(l) && l.forwarded == all
      && (l.sent == all || (l.sent == allButLast && l.Last().message.isClose))
    case Ended =>
      || (l.forwarded == allButLast && l.sent == allButLast && !LastEnqueued(l))
      || (l.forwarded == all && !LastInFlight(l)
          && (l.sent == all || (l.sent == allButLast && l.read != [] && l.Last().message.isClose)))
  }

  predicate GoodLanes(s: System) {
    && (forall c :: c in s.next ==> s.next[c] >= 1)
    && (forall lane :: lane in s.lanes ==> GoodLane(lane, s.lanes[lane], NextIndex(s, lane.connection)))
  }

  lemma MoreMessages(frames: seq<Frame>, f: Frame)
    ensures Messages(frames + [f]) == Messages(frames) + [f.message]
  {
    assert (frames + [f])[..|frames|] == frames;
  }

  lemma ReadKeepsLane(lane: Lane, l: Local, next: nat, f: Frame, fate: Fate)
    requires GoodLane(lane, l, next) && l.phase == Reading && f.lane == lane && f.index == next >= 1
    requires fate != Enqueued
    ensures GoodLane(lane, l.(phase := Forwarding, read := l.read + [f], fates := l.fates + [fate]), next + 1)
  {
    hide Messages, GoodFrames;
    assert (l.read + [f])[..|l.read|] == l.read;
    MoreFrames(lane, l.read, next, f);
  }

  lemma MoreFrames(lane: Lane, read: seq<Frame>, next: nat, f: Frame)
    requires GoodFrames(lane, read, next) && f.lane == lane && f.index == next >= 1
    requires read != [] ==> !read[|read| - 1].message.isClose
    ensures GoodFrames(lane, read + [f], next + 1)
  {
  }

  lemma ForwardKeepsLane(lane: Lane, l: Local, next: nat, outcome: Outcome)
    requires GoodLane(lane, l, next) && l.phase == Forwarding && outcome != Failed
    requires outcome == AlreadyClosed ==> l.Last().message.isClose
    ensures GoodLane(lane, l.(phase := if LastInFlight(l) then Enqueuing else AfterMessage(l.Last().message),
                              forwarded := l.forwarded + [l.Last().message],
                              sent := if outcome == Sent then l.sent + [l.Last().message] else l.sent), next)
  {
    hide Messages, GoodFrames;
    assert l.read == l.read[..|l.read| - 1] + [l.Last()];
    MoreMessages(l.read[..|l.read| - 1], l.Last());
  }

  lemma EnqueueKeepsLane(lane: Lane, l: Local, next: nat, fate: Fate)
    requires GoodLane(lane, l, next) && l.phase == Enqueuing && fate != InFlight
    ensures l.Busy()
    ensures GoodLane(lane, l.(phase := AfterMessage(l.Last().message),
                              fates := l.fates[..|l.fates| - 1] + [fate]), next)
  {
    hide Messages, GoodFrames;
  }

  lemma StopKeepsLane(lane: Lane, l: Local, next: nat)
    requires GoodLane(lane, l, next) && (l.phase == Reading || l.phase == Forwarding)
    ensures GoodLane(lane, l.(phase := Ended), next)
  {
    hide Messages, GoodFrames;
  }

  lemma LaterIndex(s: System, connection: nat, next: nat)
    requires GoodLanes(s) && next >= NextIndex(s, connection)
    ensures forall lane :: lane in s.lanes && lane.connection == connection ==> GoodLane(lane, s.lanes[lane], next)
  {
    hide GoodProgress;
  }

  lemma StepKeepsLanes(s: System, a: Action)
    requires GoodLanes(s) && Enabled(s, a)
    ensures GoodLanes(Step(s, a))
  {
    hide GoodLane, Prepared, Offered, Analyzer, Freed, PrepareFate, EnqueueFate;
    match a
    case Start(lane) => StartedIsGood(lane, NextIndex(s, lane.connection));
    case Read(lane, m) =>
      var i := NextIndex(s, lane.connection);
      PrepareDoesNotEnqueue(s.capture, m);
      ReadKeepsLane(lane, s.lanes[lane], i, Frame(lane, i, m), PrepareFate(s.capture, m));
      LaterIndex(s, lane.connection, i + 1);
    case Forward(lane, outcome) =>
      if outcome == Failed {
        StopKeepsLane(lane, s.lanes[lane], NextIndex(s, lane.connection));
      } else {
        ForwardKeepsLane(lane, s.lanes[lane], NextIndex(s, lane.connection), outcome);
      }
    case Enqueue(lane) =>
      OfferIsSettled(s.capture);
      EnqueueKeepsLane(lane, s.lanes[lane], NextIndex(s, lane.connection), EnqueueFate(s.capture));
    case Stop(lane) => StopKeepsLane(lane, s.lanes[lane], NextIndex(s, lane.connection));
    case _ =>
  }

  lemma PrepareDoesNotEnqueue(c: Capture, m: Message)
    ensures PrepareFate(c, m) != Enqueued
  {
  }

  lemma OfferIsSettled(c: Capture)
    ensures EnqueueFate(c) != InFlight && EnqueueFate(c) != TooLarge && EnqueueFate(c) != Unobserved
  {
  }

  lemma StartedIsGood(lane: Lane, next: nat)
    ensures GoodLane(lane, STARTED, next)
  {
  }

  // ---------------------------------------------------------------- permits

  function HeldBy(l: Local): nat { if l.Busy() && LastInFlight(l) then Permits(l.Last().message) else 0 }

  /** Free permits and the permits held by prepared, queued and analyzed frames make up the budget. */
  ghost predicate PermitsBalance(s: System, budget: nat) {
    s.capture.free + Total(s.lanes, HeldBy) + PermitsOf(s.capture.queue) + PermitsOf(s.capture.analyzing) == budget
  }

  lemma PermitsAppend(frames: seq<Frame>, f: Frame)
    ensures PermitsOf(frames + [f]) == PermitsOf(frames) + Permits(f.message)
  {
    assert (frames + [f])[..|frames|] == frames;
  }

  lemma {:induction false} PermitsHead(frames: seq<Frame>)
    requires frames != []
    ensures PermitsOf(frames) == Permits(frames[0].message) + PermitsOf(frames[1..])
  {
    if |frames| > 1 {
      var n := |frames| - 1;
      PermitsHead(frames[..n]);
      assert frames[1..][..n - 1] == frames[..n][1..];
    }
  }

  /** What one direction's step does to free, held and queued permits together. */
  function Balance(c: Capture, held: nat): int {
    c.free + held + PermitsOf(c.queue) + PermitsOf(c.analyzing)
  }

  lemma LaneKeepsBalance(s: System, a: Action, lane: Lane)
    requires GoodLanes(s) && Enabled(s, a)
    requires a == Start(lane) || (a.Read? && a.lane == lane) || (a.Forward? && a.lane == lane)
             || a == Enqueue(lane) || a == Stop(lane)
    ensures lane in Step(s, a).lanes && Step(s, a).lanes == s.lanes[lane := Step(s, a).lanes[lane]]
    ensures Balance(Step(s, a).capture, HeldBy(Step(s, a).lanes[lane]))
            == Balance(s.capture, HeldBy(LocalOf(s, lane)))
  {
    hide GoodProgress, GoodFrames, PermitsOf, Permits;
    if a.Enqueue? {
      EnqueuingIsInFlight(lane, s.lanes[lane], NextIndex(s, lane.connection));
      PermitsAppend(s.capture.queue, s.lanes[lane].Last());
    } else if a.Read? {
      assert GoodLane(lane, s.lanes[lane], NextIndex(s, lane.connection));
    }
  }

  lemma StepKeepsBalance(s: System, a: Action, budget: nat)
    requires PermitsBalance(s, budget) && GoodLanes(s) && Enabled(s, a)
    ensures PermitsBalance(Step(s, a), budget)
  {
    hide Total, GoodLanes, Step, PermitsOf, HeldBy, Enabled;
    if a.Receive? || a.Finish? || a.CloseReceiver? {
      AnalyzerKeepsBalance(s, a);
    } else {
      var lane := a.lane;
      LaneKeepsBalance(s, a, lane);
      TotalAfter(s.lanes, HeldBy, lane, Step(s, a).lanes[lane]);
      NothingHeld();
    }
  }

  lemma NothingHeld()
    ensures HeldBy(STARTED) == 0
  {
  }

  lemma AnalyzerKeepsBalance(s: System, a: Action)
    requires Enabled(s, a) && (a.Receive? || a.Finish? || a.CloseReceiver?)
    ensures Step(s, a).lanes == s.lanes
    ensures Balance(Step(s, a).capture, 0) == Balance(s.capture, 0)
  {
    AnalyzerKeepsPermits(s.capture, a);
  }

  lemma EnqueuingIsInFlight(lane: Lane, l: Local, next: nat)
    requires GoodLane(lane, l, next) && l.phase == Enqueuing
    ensures l.Busy() && LastInFlight(l) && l.Last().lane == lane
  {
  }

  lemma AnalyzerKeepsPermits(c: Capture, a: Action)
    requires (a.Receive? && c.queue != []) || (a.Finish? && c.analyzing != []) || a.CloseReceiver?
    ensures var d := Analyzer(c, a);
            d.free + PermitsOf(d.queue) + PermitsOf(d.analyzing)
            == c.free + PermitsOf(c.queue) + PermitsOf(c.analyzing)
  {
    if a.Receive? {
      PermitsHead(c.queue);
      PermitsAppend(c.analyzing, c.queue[0]);
    }
  }

  // ---------------------------------------------------------------- fates and counters

  function Count(fates: seq<Fate>, fate: Fate): nat {
    if fates == [] then 0
    else Count(fates[..|fates| - 1], fate) + if fates[|fates| - 1] == fate then 1 else 0
  }

  function FullIn(l: Local): nat { Count(l.fates, QueueFull) }
  function ClosedIn(l: Local): nat { Count(l.fates, AnalyzerClosed) }
  function EnqueuedIn(l: Local): nat { Count(l.fates, Enqueued) }

  /** The drop counters and the frames accepted are exactly the frames with those fates. */
  ghost predicate CountersMatch(s: System) {
    && s.capture.queueFull == Total(s.lanes, FullIn)
    && s.capture.analyzerClosed == Total(s.lanes, ClosedIn)
    && |s.capture.accepted| == Total(s.lanes, EnqueuedIn)
  }

  lemma CountAppend(fates: seq<Fate>, last: Fate, fate: Fate)
    ensures Count(fates + [last], fate) == Count(fates, fate) + if last == fate then 1 else 0
  {
    assert (fates + [last])[..|fates|] == fates;
  }

  lemma LaneTotals(s: System, lane: Lane, now: Local)
    ensures var was := if lane in s.lanes then s.lanes[lane] else STARTED;
            && Total(s.lanes[lane := now], FullIn) == Total(s.lanes, FullIn) - FullIn(was) + FullIn(now)
            && Total(s.lanes[lane := now], ClosedIn) == Total(s.lanes, ClosedIn) - ClosedIn(was) + ClosedIn(now)
            && Total(s.lanes[lane := now], EnqueuedIn)
               == Total(s.lanes, EnqueuedIn) - EnqueuedIn(was) + EnqueuedIn(now)
  {
    hide Total;
    TotalAfter(s.lanes, FullIn, lane, now);
    TotalAfter(s.lanes, ClosedIn, lane, now);
    TotalAfter(s.lanes, EnqueuedIn, lane, now);
  }

  lemma StepKeepsCounters(s: System, a: Action)
    requires CountersMatch(s) && GoodLanes(s) && Enabled(s, a)
    ensures CountersMatch(Step(s, a))
  {
    hide Total, GoodProgress, GoodFrames, Count;
    match a
    case Start(lane) =>
      LaneTotals(s, lane, STARTED);
    case Read(lane, m) =>
      var l, now := s.lanes[lane], Step(s, a).lanes[lane];
      LaneTotals(s, lane, now);
      var fate := PrepareFate(s.capture, m);
      CountAppend(l.fates, fate, QueueFull);
      CountAppend(l.fates, fate, AnalyzerClosed);
      CountAppend(l.fates, fate, Enqueued);
    case Forward(lane, _) => LaneTotals(s, lane, Step(s, a).lanes[lane]);
    case Enqueue(lane) => EnqueueKeepsCounters(s, lane);
    case Stop(lane) => LaneTotals(s, lane, Step(s, a).lanes[lane]);
    case _ =>
  }

  lemma EnqueueKeepsCounters(s: System, lane: Lane)
    requires CountersMatch(s) && GoodLanes(s) && Enabled(s, Enqueue(lane))
    ensures CountersMatch(OnEnqueue(s, lane))
  {
    hide Total, GoodProgress, GoodFrames, Count, Permits;
    var l := s.lanes[lane];
    EnqueuingIsInFlight(lane, l, NextIndex(s, lane.connection));
    var early, fate := l.fates[..|l.fates| - 1], EnqueueFate(s.capture);
    assert l.fates == early + [InFlight];
    CountAppend(early, InFlight, QueueFull);
    CountAppend(early, InFlight, AnalyzerClosed);
    CountAppend(early, InFlight, Enqueued);
    CountAppend(early, fate, QueueFull);
    CountAppend(early, fate, AnalyzerClosed);
    CountAppend(early, fate, Enqueued);
    LaneTotals(s, lane, OnEnqueue(s, lane).lanes[lane]);
  }

  /** Every fate is one of six, so the frames a direction read are those enqueued, dropped on a full
      queue, dropped without analyzer, not observed, too large for a permit count, and at most one more. */
  lemma {:induction false} FatesAddUp(fates: seq<Fate>)
    ensures Count(fates, Enqueued) + Count(fates, QueueFull) + Count(fates, AnalyzerClosed)
            + Count(fates, Unobserved) + Count(fates, TooLarge) + Count(fates, InFlight) == |fates|
  {
    if fates != [] {
      FatesAddUp(fates[..|fates| - 1]);
    }
  }

  lemma AtMostOneInFlight(lane: Lane, l: Local, next: nat)
    requires GoodLane(lane, l, next)
    ensures Count(l.fates, InFlight) <= 1
  {
    if l.fates != [] {
      NoneWith(l.fates[..|l.fates| - 1], InFlight);
    }
  }

  // ---------------------------------------------------------------- the queue against what was forwarded

  /** The frames of one lane among those accepted, in order. */
  function Of(frames: seq<Frame>, lane: Lane): seq<Frame> {
    if frames == [] then []
    else
      var f := frames[|frames| - 1];
      Of(frames[..|frames| - 1], lane) + if f.lane == lane then [f] else []
  }

  /** The frames read with the fate Enqueued, in order. */
  function Chosen(read: seq<Frame>, fates: seq<Fate>): seq<Frame>
    requires |fates| == |read|
  {
    if read == [] then []
    else
      var n := |read| - 1;
      Chosen(read[..n], fates[..n]) + if fates[n] == Enqueued then [read[n]] else []
  }

  /** Per lane, the accepted frames are exactly the frames read with that fate, in order; the queue is the
      end of what was accepted as long as the analyzer lives, and within its capacity. */
  ghost predicate QueueMatches(s: System) {
    && (forall lane :: |LocalOf(s, lane).fates| == |LocalOf(s, lane).read|
                       && Of(s.capture.accepted, lane) == Chosen(LocalOf(s, lane).read, LocalOf(s, lane).fates))
    && |s.capture.queue| <= |s.capture.accepted|
    && s.capture.queue == s.capture.accepted[|s.capture.accepted| - |s.capture.queue|..]
    && |s.capture.queue| <= s.capture.capacity
    && (!s.capture.open ==> s.capture.queue == [])
  }

  lemma ChosenAppend(read: seq<Frame>, fates: seq<Fate>, f: Frame, fate: Fate)
    requires |fates| == |read|
    ensures Chosen(read + [f], fates + [fate]) == Chosen(read, fates) + if fate == Enqueued then [f] else []
  {
    assert (read + [f])[..|read|] == read && (fates + [fate])[..|fates|] == fates;
  }

  lemma OfAppend(frames: seq<Frame>, f: Frame, lane: Lane)
    ensures Of(frames + [f], lane) == Of(frames, lane) + if f.lane == lane then [f] else []
  {
    assert (frames + [f])[..|frames|] == frames;
  }

  lemma StepKeepsQueue(s: System, a: Action)
    requires QueueMatches(s) && GoodLanes(s) && Enabled(s, a)
    ensures QueueMatches(Step(s, a))
  {
    hide GoodProgress, GoodFrames, Chosen, Of, Permits, PermitsOf, PrepareFate, Prepared;
    match a
    case Start(lane) =>
    case Read(lane, m) => ReadKeepsQueue(s, lane, m);
    case Forward(lane, _) =>
    case Enqueue(lane) => EnqueueKeepsQueue(s, lane);
    case Stop(lane) =>
    case _ =>
  }

  lemma ReadKeepsQueue(s: System, lane: Lane, m: Message)
    requires QueueMatches(s) && Enabled(s, Read(lane, m))
    ensures QueueMatches(OnRead(s, lane, m))
  {
    hide Chosen, Of, Permits;
    var l, t := LocalOf(s, lane), OnRead(s, lane, m);
    ChosenAppend(l.read, l.fates, Frame(lane, NextIndex(s, lane.connection), m), PrepareFate(s.capture, m));
    assert Chosen(LocalOf(t, lane).read, LocalOf(t, lane).fates) == Chosen(l.read, l.fates) + [];
    forall other
      ensures |LocalOf(t, other).fates| == |LocalOf(t, other).read|
      ensures Of(t.capture.accepted, other) == Chosen(LocalOf(t, other).read, LocalOf(t, other).fates)
    {
      assert other != lane ==> LocalOf(t, other) == LocalOf(s, other);
    }
  }

  lemma EnqueueKeepsQueue(s: System, lane: Lane)
    requires QueueMatches(s) && GoodLanes(s) && Enabled(s, Enqueue(lane))
    ensures QueueMatches(OnEnqueue(s, lane))
  {
    hide GoodProgress, GoodFrames, Chosen, Of, Permits, PermitsOf;
    var l, fate := s.lanes[lane], EnqueueFate(s.capture);
    EnqueuingIsInFlight(lane, l, NextIndex(s, lane.connection));
    var n := |l.fates| - 1;
    assert l.fates == l.fates[..n] + [InFlight] && l.read == l.read[..n] + [l.Last()];
    ChosenAppend(l.read[..n], l.fates[..n], l.Last(), InFlight);
    ChosenAppend(l.read[..n], l.fates[..n], l.Last(), fate);
    if fate == Enqueued {
      forall other {
        OfAppend(s.capture.accepted, l.Last(), other);
      }
    }
  }

  /** One list can be had from the other by leaving elements out. */
  predicate Subsequence<T(==)>(a: seq<T>, b: seq<T>) {
    a == []
    || (b != [] && ((a[|a| - 1] == b[|b| - 1] && Subsequence(a[..|a| - 1], b[..|b| - 1]))
                    || Subsequence(a, b[..|b| - 1])))
  }

  lemma {:induction false} EndIsSubsequence<T>(a: seq<T>, b: seq<T>, n: nat)
    requires Subsequence(a, b) && n <= |a|
    ensures Subsequence(a[n..], b)
  {
    if a != [] && n < |a| {
      if a[|a| - 1] == b[|b| - 1] && Subsequence(a[..|a| - 1], b[..|b| - 1]) {
        EndIsSubsequence(a[..|a| - 1], b[..|b| - 1], n);
        assert a[n..][..|a| - n - 1] == a[..|a| - 1][n..];
      } else {
        EndIsSubsequence(a, b[..|b| - 1], n);
      }
    }
  }

  lemma SubsequenceSame<T>(a: seq<T>, b: seq<T>, x: T)
    requires Subsequence(a, b)
    ensures Subsequence(a + [x], b + [x]) && Subsequence(a, b + [x])
  {
    assert (b + [x])[..|b|] == b && (a + [x])[..|a|] == a;
  }

  lemma {:induction false} ChosenIsSubsequence(read: seq<Frame>, fates: seq<Fate>)
    requires |fates| == |read|
    ensures Subsequence(Messages(Chosen(read, fates)), Messages(read))
  {
    if read != [] {
      var n := |read| - 1;
      ChosenIsSubsequence(read[..n], fates[..n]);
      var before := Chosen(read[..n], fates[..n]);
      MoreMessages(before, read[n]);
      SubsequenceSame(Messages(before), Messages(read[..n]), read[n].message);
      assert before + [] == before;
    }
  }

  /** The second list is the end of the first. */
  predicate EndsWith<T(==)>(all: seq<T>, end: seq<T>) { |end| <= |all| && end == all[|all| - |end|..] }

  lemma {:induction false} OfEnd(frames: seq<Frame>, lane: Lane, n: nat)
    requires n <= |frames|
    ensures EndsWith(Messages(Of(frames, lane)), Messages(Of(frames[n..], lane)))
  {
    hide Messages, Of;
    if n < |frames| {
      var m := |frames| - 1;
      OfEnd(frames[..m], lane, n);
      assert frames[n..] == frames[..m][n..] + [frames[m]] && frames == frames[..m] + [frames[m]];
      OfAppend(frames[..m][n..], frames[m], lane);
      OfAppend(frames[..m], frames[m], lane);
      if frames[m].lane == lane {
        MoreMessages(Of(frames[..m], lane), frames[m]);
        MoreMessages(Of(frames[..m][n..], lane), frames[m]);
      } else {
        assert Of(frames, lane) == Of(frames[..m], lane) && Of(frames[n..], lane) == Of(frames[..m][n..], lane);
      }
    } else {
      assert frames[n..] == [];
      NoMessages(lane);
    }
  }

  lemma NoMessages(lane: Lane)
    ensures Of([], lane) == [] && Messages([]) == []
  {
  }

  /** What a lane's forwarded messages contain of its enqueued ones. */
  lemma ForwardedContainsChosen(lane: Lane, l: Local, next: nat)
    requires GoodLane(lane, l, next)
    ensures Subsequence(Messages(Chosen(l.read, l.fates)), l.forwarded)
  {
    hide Messages, GoodFrames, Subsequence;
    ChosenIsSubsequence(l.read, l.fates);
    if l.forwarded != Messages(l.read) {
      NoMessages(lane);
      assert l.read != [];
      var n := |l.read| - 1;
      ChosenIsSubsequence(l.read[..n], l.fates[..n]);
      assert Chosen(l.read, l.fates) == Chosen(l.read[..n], l.fates[..n]);
    }
  }

  // ---------------------------------------------------------------- frame indices

  predicate Apart(a: seq<Frame>, b: seq<Frame>) {
    forall i, j :: 0 <= i < |a| && 0 <= j < |b| ==> a[i].index != b[j].index
  }

  /** Both directions of a connection draw from one counter, and no index is used twice. */
  predicate IndicesDiffer(s: System) {
    forall a, b :: a in s.lanes && b in s.lanes && a != b && a.connection == b.connection
                   ==> Apart(s.lanes[a].read, s.lanes[b].read)
  }

  lemma StepKeepsIndices(s: System, a: Action)
    requires IndicesDiffer(s) && GoodLanes(s) && Enabled(s, a)
    ensures IndicesDiffer(Step(s, a))
  {
    hide GoodProgress, GoodFrames, Apart, Prepared, PrepareFate, Offered, EnqueueFate, Freed, Analyzer;
    if a.Start? {
      forall b | b in s.lanes ensures Apart(s.lanes[b].read, []) && Apart([], s.lanes[b].read) {
        NothingIsApart(s.lanes[b].read);
      }
    } else if a.Read? {
      forall b | b in s.lanes && b != a.lane && b.connection == a.lane.connection
        ensures Apart(s.lanes[b].read, Step(s, a).lanes[a.lane].read)
        ensures Apart(Step(s, a).lanes[a.lane].read, s.lanes[b].read)
      {
        var i := NextIndex(s, b.connection);
        assert GoodLane(b, s.lanes[b], i);
        NextIsApart(b, s.lanes[b].read, s.lanes[a.lane].read, Frame(a.lane, i, a.message));
      }
    }
  }

  lemma NothingIsApart(a: seq<Frame>)
    ensures Apart(a, []) && Apart([], a)
  {
  }

  lemma NextIsApart(lane: Lane, a: seq<Frame>, b: seq<Frame>, f: Frame)
    requires GoodFrames(lane, a, f.index) && Apart(a, b)
    ensures Apart(a, b + [f]) && Apart(b + [f], a)
  {
  }

  // ---------------------------------------------------------------- the uncounted fates

  /** A frame goes unobserved only without a sender, and uncounted only when its size needs 33 bits. */
  predicate ExplainedFates(c: Capture, l: Local) {
    |l.fates| == |l.read|
    && forall i :: 0 <= i < |l.fates| ==>
         (l.fates[i] == Unobserved ==> !c.attached)
         && (l.fates[i] == TooLarge ==> Permits(l.read[i].message) >= TWO_32)
  }

  predicate FatesExplained(s: System) {
    forall lane :: lane in s.lanes ==> ExplainedFates(s.capture, s.lanes[lane])
  }

  lemma StepKeepsFates(s: System, a: Action)
    requires FatesExplained(s) && Enabled(s, a)
    ensures FatesExplained(Step(s, a))
    ensures Step(s, a).capture.attached == s.capture.attached
  {
    hide Permits, PermitsOf, ExplainedFates;
    assert Step(s, a).capture.attached == s.capture.attached;
    forall lane | lane in s.lanes && lane in Step(s, a).lanes
      ensures ExplainedFates(Step(s, a).capture, s.lanes[lane])
    {
      SameSender(s.capture, Step(s, a).capture, s.lanes[lane]);
    }
    if a.Start? {
      NothingToExplain(Step(s, a).capture);
    } else if a.Read? || a.Forward? || a.Enqueue? || a.Stop? {
      ExplainedStep(s, a);
    }
  }

  lemma SameSender(c: Capture, d: Capture, l: Local)
    requires ExplainedFates(c, l) && c.attached == d.attached
    ensures ExplainedFates(d, l)
  {
  }

  lemma NothingToExplain(c: Capture)
    ensures ExplainedFates(c, STARTED)
  {
  }

  lemma ExplainedStep(s: System, a: Action)
    requires a.Read? || a.Forward? || a.Enqueue? || a.Stop?
    requires Enabled(s, a) && ExplainedFates(s.capture, s.lanes[a.lane])
    ensures a.lane in Step(s, a).lanes && ExplainedFates(Step(s, a).capture, Step(s, a).lanes[a.lane])
  {
    hide Permits, PermitsOf;
  }

  lemma {:induction false} NoneWith(fates: seq<Fate>, fate: Fate)
    requires forall i :: 0 <= i < |fates| ==> fates[i] != fate
    ensures Count(fates, fate) == 0
  {
    if fates != [] {
      NoneWith(fates[..|fates| - 1], fate);
    }
  }

  // ---------------------------------------------------------------- whole runs

  /** Everything that holds at any time. */
  ghost predicate Invariant(s: System, budget: nat) {
    && GoodLanes(s) && PermitsBalance(s, budget) && CountersMatch(s) && QueueMatches(s) && IndicesDiffer(s)
    && FatesExplained(s)
  }

  /** In every interleaving of any number of connections: permits are conserved, every frame read has one
      fate and the counters are exactly the frames with those fates, indices are unique per connection,
      and the queue holds what was accepted. */
  lemma {:induction false} RunKeepsInvariant(attached: bool, budget: nat, capacity: nat, run: seq<Action>)
    ensures var s := After(Initial(attached, budget, capacity), run);
            s.Some? ==> Invariant(s.value, budget) && s.value.capture.attached == attached
  {
    hide GoodLanes, PermitsBalance, CountersMatch, QueueMatches, IndicesDiffer, FatesExplained, Enabled, Step;
    if run == [] {
      InitiallyHolds(attached, budget, capacity);
    } else {
      var n := |run| - 1;
      RunKeepsInvariant(attached, budget, capacity, run[..n]);
      var s := After(Initial(attached, budget, capacity), run[..n]);
      if s.Some? && Enabled(s.value, run[n]) {
        StepKeepsLanes(s.value, run[n]);
        StepKeepsBalance(s.value, run[n], budget);
        StepKeepsCounters(s.value, run[n]);
        StepKeepsQueue(s.value, run[n]);
        StepKeepsIndices(s.value, run[n]);
        StepKeepsFates(s.value, run[n]);
      }
    }
  }

  lemma InitiallyHolds(attached: bool, budget: nat, capacity: nat)
    ensures Invariant(Initial(attached, budget, capacity), budget)
  {
  }

  /** After any run the frames in the queue of one direction are a subsequence of what it forwarded. */
  lemma QueueIsForwarded(attached: bool, budget: nat, capacity: nat, run: seq<Action>, lane: Lane)
    ensures var s := After(Initial(attached, budget, capacity), run);
            s.Some? && lane in s.value.lanes ==>
              && Subsequence(Messages(Of(s.value.capture.accepted, lane)), s.value.lanes[lane].forwarded)
              && Subsequence(Messages(Of(s.value.capture.queue, lane)), s.value.lanes[lane].forwarded)
  {
    hide After, Messages, Of, Subsequence, GoodLane, Chosen, PermitsBalance, CountersMatch, IndicesDiffer;
    RunKeepsInvariant(attached, budget, capacity, run);
    var o := After(Initial(attached, budget, capacity), run);
    if o.Some? && lane in o.value.lanes {
      var s, l := o.value, o.value.lanes[lane];
      assert LocalOf(s, lane) == l;
      ForwardedContainsChosen(lane, l, NextIndex(s, lane.connection));
      OfEnd(s.capture.accepted, lane, |s.capture.accepted| - |s.capture.queue|);
      var all, end := Messages(Of(s.capture.accepted, lane)), Messages(Of(s.capture.queue, lane));
      EndIsSubsequence(all, l.forwarded, |all| - |end|);
    }
  }

  /** The frames read by a direction, by what became of them, and how far their messages got. */
  predicate Accounted(c: Capture, lane: Lane, l: Local) {
    && |l.read| == Count(l.fates, Enqueued) + Count(l.fates, QueueFull) + Count(l.fates, AnalyzerClosed)
                   + Count(l.fates, Unobserved) + Count(l.fates, TooLarge) + Count(l.fates, InFlight)
    && Count(l.fates, InFlight) <= 1
    && |Of(c.accepted, lane)| == Count(l.fates, Enqueued)
    && (c.attached ==> Count(l.fates, Unobserved) == 0)
    && ((forall i :: 0 <= i < |l.read| ==> l.read[i].message.size < TWO_32) ==> Count(l.fates, TooLarge) == 0)
    && l.sent <= l.forwarded <= Messages(l.read)
    && |Messages(l.read)| - 1 <= |l.sent|
  }

  /** After any run: frames read = enqueued + counted drops + unobserved + too large + at most one in flight
      or lost, none unobserved with a sender and none too large below 2^32 bytes; and what was read is sent
      in order but for at most the last message. */
  lemma EveryFrameIsAccountedFor(attached: bool, budget: nat, capacity: nat, run: seq<Action>, lane: Lane)
    ensures var s := After(Initial(attached, budget, capacity), run);
            s.Some? && lane in s.value.lanes ==> Accounted(s.value.capture, lane, s.value.lanes[lane])
  {
    hide After, Accounted, PermitsBalance, CountersMatch, IndicesDiffer, GoodLane, ExplainedFates, Chosen, Of;
    RunKeepsInvariant(attached, budget, capacity, run);
    var o := After(Initial(attached, budget, capacity), run);
    if o.Some? && lane in o.value.lanes {
      var s, l := o.value, o.value.lanes[lane];
      assert LocalOf(s, lane) == l;
      LaneIsAccounted(s.capture, lane, l, NextIndex(s, lane.connection));
    }
  }

  lemma LaneIsAccounted(c: Capture, lane: Lane, l: Local, next: nat)
    requires GoodLane(lane, l, next) && ExplainedFates(c, l) && Of(c.accepted, lane) == Chosen(l.read, l.fates)
    ensures Accounted(c, lane, l)
  {
    hide GoodFrames, Messages, Of, Chosen, Count;
    if c.attached {
      NoneWith(l.fates, Unobserved);
    }
    if forall i :: 0 <= i < |l.read| ==> l.read[i].message.size < TWO_32 {
      NoneWith(l.fates, TooLarge);
    }
    FatesAddUp(l.fates);
    AtMostOneInFlight(lane, l, next);
    ChosenCounts(l.read, l.fates);
    ProgressIsPrefix(lane, l, next);
  }

  lemma {:induction false} ChosenCounts(read: seq<Frame>, fates: seq<Fate>)
    requires |fates| == |read|
    ensures |Chosen(read, fates)| == Count(fates, Enqueued)
  {
    if read != [] {
      ChosenCounts(read[..|read| - 1], fates[..|read| - 1]);
    }
  }

  lemma ProgressIsPrefix(lane: Lane, l: Local, next: nat)
    requires GoodLane(lane, l, next)
    ensures l.sent <= l.forwarded <= Messages(l.read)
    ensures |Messages(l.read)| - 1 <= |l.sent|
  {
    hide GoodFrames;
    if l.read != [] {
      assert l.read == l.read[..|l.read| - 1] + [l.Last()];
      MoreMessages(l.read[..|l.read| - 1], l.Last());
    }
  }

  // ---------------------------------------------------------------- which frames are dropped

  /** The permits a message needs: its payload bytes, and one for an empty payload. */
  function Need(m: Message): nat { if m.size > 1 then m.size else 1 }

  /** A read is counted as queue-full when an observed frame of fewer than 2^32 bytes needs more than is free. */
  predicate BudgetShort(c: Capture, m: Message) {
    c.attached && c.open && Need(m) < 0x1_0000_0000 && Need(m) > c.free
  }

  /** What reading a message does to the capture: it is counted as queue-full exactly when the budget is short,
      as analyzer-closed exactly when the receiver is gone, and otherwise an observed frame takes its permits. */
  lemma ReadIsExact(s: System, lane: Lane, m: Message)
    requires Enabled(s, Read(lane, m))
    ensures var c, d := s.capture, Step(s, Read(lane, m)).capture;
            && d.queueFull == c.queueFull + (if BudgetShort(c, m) then 1 else 0)
            && d.analyzerClosed == c.analyzerClosed + (if c.attached && !c.open then 1 else 0)
            && d.free == c.free - (if c.attached && c.open && Need(m) < 0x1_0000_0000 && Need(m) <= c.free
                                   then Need(m) else 0)
            && d == c.(queueFull := d.queueFull, analyzerClosed := d.analyzerClosed, free := d.free)
    ensures var l, t := s.lanes[lane], Step(s, Read(lane, m)).lanes[lane];
            && t.phase == Forwarding && t.read == l.read + [Frame(lane, NextIndex(s, lane.connection), m)]
            && t.forwarded == l.forwarded && t.sent == l.sent
            && (LastInFlight(t) <==> s.capture.attached && s.capture.open && Need(m) < 0x1_0000_0000
                                     && Need(m) <= s.capture.free)
  {
  }

  /** What forwarding leaves: a failure ends the direction and gives the permits back; a success goes on to
      the queue exactly when the frame holds permits, and to the next read or the end otherwise. */
  lemma ForwardIsExact(s: System, lane: Lane, outcome: Outcome)
    requires GoodLanes(s) && Enabled(s, Forward(lane, outcome))
    ensures var l, t := s.lanes[lane], Step(s, Forward(lane, outcome)).lanes[lane];
            var m := l.Last().message;
            var c, d := s.capture, Step(s, Forward(lane, outcome)).capture;
            if outcome == Failed then
              && t.phase == Ended && t.forwarded == l.forwarded && t.sent == l.sent
              && d == c.(free := c.free + if LastInFlight(l) then Need(m) else 0)
            else
              && t.forwarded == l.forwarded + [m] && d == c
              && t.sent == (if outcome == Sent then l.sent + [m] else l.sent)
              && t.phase == (if LastInFlight(l) then Enqueuing else if m.isClose then Ended else Reading)
  {
    hide GoodFrames;
    assert GoodLane(lane, s.lanes[lane], NextIndex(s, lane.connection));
  }

  /** What enqueuing does: the frame joins the queue exactly when the receiver is open and the queue below its
      capacity, and otherwise it is counted and its permits come back. */
  lemma EnqueueIsExact(s: System, lane: Lane)
    requires GoodLanes(s) && Enabled(s, Enqueue(lane))
    ensures var c, d := s.capture, Step(s, Enqueue(lane)).capture;
            var f := s.lanes[lane].Last();
            && (c.open && |c.queue| < c.capacity ==>
                  d == c.(queue := c.queue + [f], accepted := c.accepted + [f]))
            && (c.open && |c.queue| >= c.capacity ==>
                  d == c.(queueFull := c.queueFull + 1, free := c.free + Need(f.message)))
            && (!c.open ==>
                  d == c.(analyzerClosed := c.analyzerClosed + 1, free := c.free + Need(f.message)))
  {
  }

  /** The analyzer takes frames in the order they were queued, and closing gives back what was queued. */
  lemma AnalyzerIsExact(s: System)
    ensures s.capture.queue != [] ==>
              Step(s, Receive).capture == s.capture.(queue := s.capture.queue[1..],
                                                     analyzing := s.capture.analyzing + [s.capture.queue[0]])
    ensures s.capture.open ==>
              Step(s, CloseReceiver).capture == s.capture.(open := false, queue := [],
                                                           free := s.capture.free + PermitsOf(s.capture.queue))
  {
  }

  /** The drops for a full queue or a short budget along a run. */
  function FullDrops(start: System, run: seq<Action>): nat {
    if run == [] || After(start, run).None? then 0
    else
      var before, a := After(start, run[..|run| - 1]).value, run[|run| - 1];
      var c := before.capture;
      FullDrops(start, run[..|run| - 1])
      + if (a.Read? && BudgetShort(c, a.message)) || (a.Enqueue? && c.open && |c.queue| >= c.capacity) then 1 else 0
  }

  /** The drops without an analyzer along a run. */
  function ClosedDrops(start: System, run: seq<Action>): nat {
    if run == [] || After(start, run).None? then 0
    else
      var before, a := After(start, run[..|run| - 1]).value, run[|run| - 1];
      var c := before.capture;
      ClosedDrops(start, run[..|run| - 1])
      + if (a.Read? && c.attached && !c.open) || (a.Enqueue? && !c.open) then 1 else 0
  }

  /** Over any run the two counters count exactly those drops: nothing is dropped without need, and nothing
      that is dropped goes uncounted. */
  lemma {:induction false} DropsAreExact(attached: bool, budget: nat, capacity: nat, run: seq<Action>)
    requires After(Initial(attached, budget, capacity), run).Some?
    ensures var c := After(Initial(attached, budget, capacity), run).value.capture;
            && c.queueFull == FullDrops(Initial(attached, budget, capacity), run)
            && c.analyzerClosed == ClosedDrops(Initial(attached, budget, capacity), run)
  {
    hide Enabled, Step, BudgetShort, GoodLanes, Invariant;
    if run != [] {
      var n := |run| - 1;
      DropsAreExact(attached, budget, capacity, run[..n]);
      RunKeepsInvariant(attached, budget, capacity, run[..n]);
      var s, a := After(Initial(attached, budget, capacity), run[..n]).value, run[n];
      InvariantHasGoodLanes(s, budget);
      if a.Read? {
        ReadIsExact(s, a.lane, a.message);
      } else if a.Enqueue? {
        EnqueueIsExact(s, a.lane);
      } else {
        OthersDropNothing(s, a);
      }
    }
  }

  lemma OthersDropNothing(s: System, a: Action)
    requires Enabled(s, a) && !a.Read? && !a.Enqueue?
    ensures Step(s, a).capture.queueFull == s.capture.queueFull
    ensures Step(s, a).capture.analyzerClosed == s.capture.analyzerClosed
  {
  }

  // ---------------------------------------------------------------- capturing never changes the relaying

  datatype Progress = Idle | Busy | Over

  /** A direction without any capture. */
  datatype Plain = Plain(progress: Progress, read: seq<Message>, forwarded: seq<Message>, sent: seq<Message>)

  type Relaying = map<Lane, Plain>

  /** What readers, writers and shutdown do. */
  predicate External(a: Action) { a.Start? || a.Read? || a.Forward? || a.Stop? }

  /** The relay with all capturing left out. */
  function PlainStep(r: Relaying, a: Action): Relaying {
    match a
    case Start(lane) => r[lane := Plain(Idle, [], [], [])]
    case Read(lane, m) =>
      if lane in r then r[lane := r[lane].(progress := Busy, read := r[lane].read + [m])] else r
    case Forward(lane, outcome) =>
      if lane !in r || r[lane].read == [] then r
      else if outcome == Failed then r[lane := r[lane].(progress := Over)]
      else
        var p := r[lane];
        var m := p.read[|p.read| - 1];
        r[lane := p.(progress := if m.isClose then Over else Idle, forwarded := p.forwarded + [m],
                     sent := if outcome == Sent then p.sent + [m] else p.sent)]
    case Stop(lane) => if lane in r then r[lane := r[lane].(progress := Over)] else r
    case _ => r
  }

  function PlainRun(r: Relaying, run: seq<Action>): Relaying {
    if run == [] then r else PlainStep(PlainRun(r, run[..|run| - 1]), run[|run| - 1])
  }

  function Externals(run: seq<Action>): seq<Action> {
    if run == [] then []
    else Externals(run[..|run| - 1]) + if External(run[|run| - 1]) then [run[|run| - 1]] else []
  }

  function ProgressOf(l: Local): Progress {
    match l.phase
    case Reading => Idle
    case Forwarding => Busy
    case Enqueuing => if l.read != [] && l.Last().message.isClose then Over else Idle
    case Ended => Over
  }

  function ViewOf(l: Local): Plain { Plain(ProgressOf(l), Messages(l.read), l.forwarded, l.sent) }

  function View(s: System): Relaying { map lane | lane in s.lanes :: ViewOf(s.lanes[lane]) }

  lemma ViewAfter(s: System, t: System, lane: Lane, l: Local)
    requires t.lanes == s.lanes[lane := l]
    ensures View(t) == View(s)[lane := ViewOf(l)]
    ensures lane in s.lanes ==> lane in View(s) && View(s)[lane] == ViewOf(s.lanes[lane])
  {
    hide ViewOf;
  }

  /** Leaving the capture out of a step leaves the step of the plain relay. */
  lemma StepRefinesPlain(s: System, a: Action)
    requires GoodLanes(s) && Enabled(s, a)
    ensures View(Step(s, a)) == PlainStep(View(s), a)
  {
    hide GoodFrames, GoodProgress, Prepared, PrepareFate, Offered, EnqueueFate, Freed, Analyzer, Messages, View;
    if a.Receive? || a.Finish? || a.CloseReceiver? {
      SameView(s, Step(s, a));
    } else {
      var lane, now := a.lane, Step(s, a).lanes[a.lane];
      ViewAfter(s, Step(s, a), lane, now);
      match a
      case Start(_) => NoMessages(lane);
      case Read(_, m) => MoreMessages(s.lanes[lane].read, Frame(lane, NextIndex(s, lane.connection), m));
      case Forward(_, _) => LastMessage(s.lanes[lane].read);
      case Enqueue(_) => ReplacedBySame(View(s), lane);
      case Stop(_) =>
    }
  }

  lemma SameView(s: System, t: System)
    requires s.lanes == t.lanes
    ensures View(s) == View(t)
  {
  }

  lemma ReplacedBySame(r: Relaying, lane: Lane)
    requires lane in r
    ensures r[lane := r[lane]] == r
  {
  }

  lemma LastMessage(frames: seq<Frame>)
    requires frames != []
    ensures Messages(frames) != [] && Messages(frames)[|Messages(frames)| - 1] == frames[|frames| - 1].message
  {
  }

  lemma {:induction false} RunRefinesPlain(attached: bool, budget: nat, capacity: nat, run: seq<Action>)
    ensures var s := After(Initial(attached, budget, capacity), run);
            s.Some? ==> View(s.value) == PlainRun(map[], Externals(run))
  {
    hide Enabled, Step, View, PlainStep, Invariant, GoodLanes;
    if run == [] {
      assert View(Initial(attached, budget, capacity)) == map[] by { NothingInView(attached, budget, capacity); }
    } else {
      var n := |run| - 1;
      RunRefinesPlain(attached, budget, capacity, run[..n]);
      var s := After(Initial(attached, budget, capacity), run[..n]);
      if s.Some? && Enabled(s.value, run[n]) {
        assert GoodLanes(s.value) by {
          RunKeepsInvariant(attached, budget, capacity, run[..n]);
          InvariantHasGoodLanes(s.value, budget);
        }
        StepRefinesPlain(s.value, run[n]);
        var e := Externals(run[..n]);
        assert (e + [run[n]])[..|e|] == e && e + [] == e;
        InternalStep(PlainRun(map[], e), run[n]);
      }
    }
  }

  lemma NothingInView(attached: bool, budget: nat, capacity: nat)
    ensures View(Initial(attached, budget, capacity)) == map[]
  {
  }

  lemma InvariantHasGoodLanes(s: System, budget: nat)
    requires Invariant(s, budget)
    ensures GoodLanes(s)
  {
  }

  lemma InternalStep(r: Relaying, a: Action)
    ensures !External(a) ==> PlainStep(r, a) == r
  {
  }

  /** Two runs with the same reader, writer and shutdown events forward and send the same messages,
      whether the capture is absent, full, closed, out of budget or anything else. */
  lemma CaptureDoesNotInterfere(attached: bool, budget: nat, capacity: nat, run: seq<Action>,
                                attached': bool, budget': nat, capacity': nat, run': seq<Action>, lane: Lane)
    requires Externals(run) == Externals(run')
    requires After(Initial(attached, budget, capacity), run).Some?
    requires After(Initial(attached', budget', capacity'), run').Some?
    ensures var s, s' := After(Initial(attached, budget, capacity), run).value,
                         After(Initial(attached', budget', capacity'), run').value;
            && (lane in s.lanes <==> lane in s'.lanes)
            && (lane in s.lanes ==> s.lanes[lane].forwarded == s'.lanes[lane].forwarded
                                    && s.lanes[lane].sent == s'.lanes[lane].sent
                                    && Messages(s.lanes[lane].read) == Messages(s'.lanes[lane].read))
  {
    hide After, Externals, PlainRun, Messages, ProgressOf;
    RunRefinesPlain(attached, budget, capacity, run);
    RunRefinesPlain(attached', budget', capacity', run');
    var s, s' := After(Initial(attached, budget, capacity), run).value,
                 After(Initial(attached', budget', capacity'), run').value;
    assert lane in s.lanes ==> View(s)[lane] == ViewOf(s.lanes[lane]);
    assert lane in s'.lanes ==> View(s')[lane] == ViewOf(s'.lanes[lane]);
  }

  /** A direction's next step is always possible where it is due, whatever the capture is like. */
  lemma NextStepIsPossible(s: System, lane: Lane, m: Message)
    requires GoodLanes(s) && lane in s.lanes
    ensures s.lanes[lane].phase == Reading ==> Enabled(s, Read(lane, m))
    ensures s.lanes[lane].phase == Forwarding ==> Enabled(s, Forward(lane, Sent)) && Enabled(s, Forward(lane, Failed))
    ensures s.lanes[lane].phase == Enqueuing ==>
              Enabled(s, Enqueue(lane)) && In(Step(s, Enqueue(lane)), lane, AfterMessage(s.lanes[lane].Last().message))
  {
    hide GoodFrames;
    assert GoodLane(lane, s.lanes[lane], NextIndex(s, lane.connection));
  }

  /** Forwarding can find the connection closed only for a Close, and a direction can be stopped at both of the
      points where it waits. */
  lemma OtherStepsArePossible(s: System, lane: Lane)
    requires GoodLanes(s) && lane in s.lanes
    ensures s.lanes[lane].phase == Forwarding ==>
              s.lanes[lane].Busy()
              && (Enabled(s, Forward(lane, AlreadyClosed)) <==> s.lanes[lane].Last().message.isClose)
    ensures Enabled(s, Stop(lane)) <==> s.lanes[lane].phase == Reading || s.lanes[lane].phase == Forwarding
  {
    hide GoodFrames, Messages;
    assert GoodLane(lane, s.lanes[lane], NextIndex(s, lane.connection));
  }

  /** No direction is between forwarding a message and handing its frame to the queue. */
  predicate Settled(s: System) { forall lane :: lane in s.lanes ==> s.lanes[lane].phase != Enqueuing }

  /** What one system can do next from outside, another that looks the same can do as well. */
  lemma SameEnabled(s: System, t: System, a: Action)
    requires GoodLanes(s) && GoodLanes(t) && Settled(t) && View(s) == View(t) && External(a) && Enabled(s, a)
    ensures Enabled(t, a)
  {
    hide View, GoodFrames, Messages;
    SameLane(s, t, a.lane);
    if !a.Start? {
      assert GoodLane(a.lane, t.lanes[a.lane], NextIndex(t, a.lane.connection));
      if a.Forward? {
        LastMessage(s.lanes[a.lane].read);
        LastMessage(t.lanes[a.lane].read);
      }
    }
  }

  lemma SameLane(s: System, t: System, lane: Lane)
    requires View(s) == View(t)
    ensures lane in s.lanes <==> lane in t.lanes
    ensures lane in s.lanes ==> ViewOf(s.lanes[lane]) == ViewOf(t.lanes[lane])
  {
    hide ViewOf;
    assert lane in s.lanes <==> lane in View(s);
    assert lane in t.lanes <==> lane in View(t);
    assert lane in s.lanes ==> View(s)[lane] == ViewOf(s.lanes[lane]);
    assert lane in t.lanes ==> View(t)[lane] == ViewOf(t.lanes[lane]);
  }

  lemma OneMore(start: System, run: seq<Action>, a: Action)
    requires After(start, run).Some? && Enabled(After(start, run).value, a)
    ensures After(start, run + [a]) == Some(Step(After(start, run).value, a))
    ensures Externals(run + [a]) == Externals(run) + if External(a) then [a] else []
  {
    assert (run + [a])[..|run|] == run;
  }

  /** An outside step, and the queueing it makes due. */
  lemma StepAndSettle(start: System, run: seq<Action>, a: Action) returns (more: seq<Action>)
    requires After(start, run).Some? && Settled(After(start, run).value) && GoodLanes(After(start, run).value)
    requires External(a) && Enabled(After(start, run).value, a)
    ensures After(start, more).Some? && Settled(After(start, more).value)
    ensures Externals(more) == Externals(run) + [a]
  {
    hide After, Externals, GoodLane, Prepared, PrepareFate, Offered, EnqueueFate, Freed;
    var s := After(start, run).value;
    var t := Step(s, a);
    OneMore(start, run, a);
    more := run + [a];
    if a.lane in t.lanes && t.lanes[a.lane].phase == Enqueuing {
      StepKeepsLanes(s, a);
      NextStepIsPossible(t, a.lane, Message(0, false, []));
      OneMore(start, more, Enqueue(a.lane));
      more := more + [Enqueue(a.lane)];
      assert Externals(more) == Externals(run) + [a] + [];
    }
  }

  /** Nor does the capture ever hold anything up: whatever the readers, writers and shutdowns do in one run,
      they can do with any other capture. */
  lemma {:induction false} CaptureNeverBlocks(attached: bool, budget: nat, capacity: nat, run: seq<Action>,
                                              attached': bool, budget': nat, capacity': nat)
    returns (run': seq<Action>)
    requires After(Initial(attached, budget, capacity), run).Some?
    ensures After(Initial(attached', budget', capacity'), run').Some?
    ensures Externals(run') == Externals(run)
    ensures Settled(After(Initial(attached', budget', capacity'), run').value)
  {
    hide Enabled, Step, View, Invariant, GoodLanes, Settled, PlainRun;
    var start := Initial(attached', budget', capacity');
    if run == [] {
      run' := [];
      InitiallySettled(attached', budget', capacity');
    } else {
      var n := |run| - 1;
      run' := CaptureNeverBlocks(attached, budget, capacity, run[..n], attached', budget', capacity');
      var s, t := After(Initial(attached, budget, capacity), run[..n]).value, After(start, run').value;
      if External(run[n]) {
        RunRefinesPlain(attached, budget, capacity, run[..n]);
        RunRefinesPlain(attached', budget', capacity', run');
        RunKeepsInvariant(attached, budget, capacity, run[..n]);
        RunKeepsInvariant(attached', budget', capacity', run');
        InvariantHasGoodLanes(s, budget);
        InvariantHasGoodLanes(t, budget');
        SameEnabled(s, t, run[n]);
        run' := StepAndSettle(start, run', run[n]);
      } else {
        assert Externals(run) == Externals(run[..n]) + [];
      }
    }
  }

  lemma InitiallySettled(attached: bool, budget: nat, capacity: nat)
    ensures Settled(Initial(attached, budget, capacity))
  {
  }
}
