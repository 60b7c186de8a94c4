// The request matcher of src/websocket.rs as a step system: callers, a read task and timeouts race on
// one map of pending requests.
module WebSocket {
  import opened Bytes

  const INBOX_CAPACITY := 200

  /** A decoded binary frame: the request it answers, its code and what else it carries. */
  datatype Frame = Frame(resp: nat, code: int, content: Bytes)

  /** The oneshot channel of a request: a reply is the dispatch number of its frame; Dropped if the sender
      went away unused. */
  datatype Slot = Empty | Filled(reply: nat) | Dropped

  datatype Outcome = Submitted | SendFailed | Replied(frame: Frame) | Rejected(code: int) | TimedOut | ChannelClosed

  /** Where send or send_with_response is: seq assigned; entry inserted; waiting for a reply; timer elapsed
      but entry not yet removed; returned. */
  datatype Phase = Assigned | Registered | Waiting | Expired | Finished(outcome: Outcome)

  /** One call; awaits tells send_with_response from send, and since counts the frames that had been
      dispatched when it registered. */
  datatype Call = Call(seqNo: nat, awaits: bool, phase: Phase, slot: Slot, since: nat)

  /** The read task: waiting for a frame, about to dispatch one, or about to pass one on. */
  datatype Reader = Listening | Dispatching(frame: Frame) | PassingOn

  /** inbox counts the messages in the channel to the caller; open says whether its receiver still takes
      them, and discarded counts those that met a closed one. */
  datatype System = System(
    nextSeq: nat, pending: map<nat, nat>, calls: seq<Call>, wire: seq<nat>,
    reader: Reader, dispatched: seq<Frame>, open: bool, inbox: nat, drained: nat, discarded: nat)

  const CONNECTED := System(1, map[], [], [], Listening, [], true, 0, 0, 0)

  /** u32 addition in a release build. */
  function Increment(n: nat): nat { (n + 1) % TWO_32 }

  datatype Action =
    | Assign(awaits: bool)
    | Register(id: nat)
    | Submit(id: nat, ok: bool)
    | Arrive(frame: Frame)
    | Dispatch
    | PassOn
    | Drain
    | CloseMessages
    | Take(id: nat)
    | Expire(id: nat)
    | Remove(id: nat)

  predicate Enabled(s: System, a: Action) {
    match a
    case Assign(_) => true
    case Register(id) => id < |s.calls| && s.calls[id].awaits && s.calls[id].phase == Assigned
    case Submit(id, _) => id < |s.calls| && s.calls[id].phase == if s.calls[id].awaits then Registered else Assigned
    case Arrive(_) => s.reader.Listening?
    case Dispatch => s.reader.Dispatching?
    case PassOn => s.reader.PassingOn? && (!s.open || s.inbox < INBOX_CAPACITY)
    case Drain => s.inbox > 0
    case CloseMessages => s.open
    case Take(id) => id < |s.calls| && s.calls[id].phase == Waiting && s.calls[id].slot != Empty
    case Expire(id) => id < |s.calls| && s.calls[id].phase == Waiting
    case Remove(id) => id < |s.calls| && s.calls[id].phase == Expired
  }

  /** The entry's sender is dropped: a call that is still listening will find its channel closed. */
  function DropSender(calls: seq<Call>, pending: map<nat, nat>, key: nat): seq<Call> {
    if key in pending && pending[key] < |calls| && calls[pending[key]].slot == Empty
    then calls[pending[key] := calls[pending[key]].(slot := Dropped)]
    else calls
  }

  function OnRegister(s: System, id: nat): System
    requires Enabled(s, Register(id))
  {
    var key := s.calls[id].seqNo;
    var calls := DropSender(s.calls, s.pending, key);
    s.(pending := s.pending[key := id],
       calls := calls[id := calls[id].(phase := Registered, since := |s.dispatched|)])
  }

  function OnSubmit(s: System, id: nat, ok: bool): System
    requires Enabled(s, Submit(id, ok))
  {
    var c := s.calls[id];
    if !ok then s.(calls := s.calls[id := c.(phase := Finished(SendFailed))])
    else s.(calls := s.calls[id := c.(phase := if c.awaits then Waiting else Finished(Submitted))],
            wire := s.wire + [c.seqNo])
  }

  /** The frame's request leaves the map and gets the frame, whether or not it still listens. */
  function OnDispatch(s: System): System
    requires s.reader.Dispatching?
  {
    var f := s.reader.frame;
    var n := |s.dispatched|;
    var t := s.(reader := PassingOn, dispatched := s.dispatched + [f]);
    if f.resp > 0 && f.resp in s.pending then
      var id := s.pending[f.resp];
      t.(pending := s.pending - {f.resp},
         calls := if id < |s.calls| && s.calls[id].slot == Empty
                  then s.calls[id := s.calls[id].(slot := Filled(n))] else s.calls)
    else t
  }

  function OutcomeOf(dispatched: seq<Frame>, slot: Slot): Outcome {
    match slot
    case Filled(n) =>
      if n < |dispatched| then
        var f := dispatched[n];
        if f.code == 0 then Replied(f) else Rejected(f.code)
      else ChannelClosed
    case _ => ChannelClosed
  }

  function OnRemove(s: System, id: nat): System
    requires Enabled(s, Remove(id))
  {
    s.(pending := s.pending - {s.calls[id].seqNo},
       calls := s.calls[id := s.calls[id].(phase := Finished(TimedOut))])
  }

  function Step(s: System, a: Action): System
    requires Enabled(s, a)
  {
    match a
    case Assign(awaits) =>
      s.(nextSeq := Increment(s.nextSeq), calls := s.calls + [Call(s.nextSeq, awaits, Assigned, Empty, 0)])
    case Register(id) => OnRegister(s, id)
    case Submit(id, ok) => OnSubmit(s, id, ok)
    case Arrive(f) => s.(reader := Dispatching(f))
    case Dispatch => OnDispatch(s)
    case PassOn =>
      if s.open then s.(reader := Listening, inbox := s.inbox + 1)
      else s.(reader := Listening, discarded := s.discarded + 1)
    case Drain => s.(inbox := s.inbox - 1, drained := s.drained + 1)
    case CloseMessages => s.(open := false)
    case Take(id) =>
      s.(calls := s.calls[id := s.calls[id].(phase := Finished(OutcomeOf(s.dispatched, s.calls[id].slot)))])
    case Expire(id) => s.(calls := s.calls[id := s.calls[id].(phase := Expired)])
    case Remove(id) => OnRemove(s, id)
  }

  /** The system after a run, or nothing if some step was not enabled when taken. */
  function After(run: seq<Action>): Option<System> {
    if run == [] then Some(CONNECTED)
    else
      var before := After(run[..|run| - 1]);
      var a := run[|run| - 1];
      if before.Some? && Enabled(before.value, a) then Some(Step(before.value, a)) else None
  }

  // ---------------------------------------------------------------- sequence numbers

  /** The number of the i-th call: one, two, and so on, wrapping at 2^32. */
  function SeqOf(i: nat): nat { (i + 1) % TWO_32 }

  lemma NextSeq(i: nat)
    ensures Increment(SeqOf(i)) == SeqOf(i + 1)
  {
  }

  lemma Quotient(a: int, b: int)
    requires a % TWO_32 == b % TWO_32
    ensures exists k :: b - a == k * TWO_32
  {
    assert b - a == (b / TWO_32 - a / TWO_32) * TWO_32;
  }

  lemma SameSeqIff(i: nat, j: nat)
    ensures SeqOf(i) == SeqOf(j) <==> (j - i) % TWO_32 == 0
  {
    if SeqOf(i) == SeqOf(j) {
      Quotient(i + 1, j + 1);
      var k :| (j + 1) - (i + 1) == k * TWO_32;
    }
  }

  lemma SeqsDiffer(i: nat, j: nat)
    requires i < TWO_32 && j < TWO_32 && i != j
    ensures SeqOf(i) != SeqOf(j)
  {
  }

  /** Calls are numbered in the order they start. */
  predicate Numbered(s: System) {
    && s.nextSeq == SeqOf(|s.calls|)
    && forall i :: 0 <= i < |s.calls| ==> s.calls[i].seqNo == SeqOf(i)
  }

  // ---------------------------------------------------------------- one request

  /** The first frame dispatched at or after since that answers the key, up to n. */
  predicate FirstReply(dispatched: seq<Frame>, key: nat, since: nat, n: nat) {
    && since <= n < |dispatched| && dispatched[n].resp == key > 0
    && forall m :: since <= m < n ==> dispatched[m].resp != key
  }

  /** No frame dispatched since then answers the key. */
  predicate NoReply(dispatched: seq<Frame>, key: nat, since: nat) {
    since <= |dispatched| && (key > 0 ==> forall m :: since <= m < |dispatched| ==> dispatched[m].resp != key)
  }

  /** Whether the call's entry is still in the map. */
  predicate IsPending(s: System, id: nat)
    requires id < |s.calls|
  {
    s.calls[id].seqNo in s.pending && s.pending[s.calls[id].seqNo] == id
  }

  /** A reply or a rejection comes from the frame in the slot, by its code; the channel never closes. */
  predicate OutcomeFits(c: Call, dispatched: seq<Frame>) {
    match c.phase
    case Finished(o) =>
      && o != ChannelClosed
      && (o.Replied? || o.Rejected? ==> c.slot.Filled? && c.slot.reply < |dispatched|)
      && (o.Replied? ==> o.frame == dispatched[c.slot.reply] && o.frame.code == 0)
      && (o.Rejected? ==> o.code == dispatched[c.slot.reply].code != 0)
    case _ => true
  }

  /** One call, given whether its entry is in the map. Its slot holds the first frame dispatched since it
      registered that answers its number; until there is one, its entry stays while it listens. An entry
      belongs to a registered, waiting, expired or send-failed request with no reply. */
  predicate GoodCall(c: Call, pending: bool, dispatched: seq<Frame>) {
    && !c.slot.Dropped?
    && (c.slot.Filled? ==> c.awaits && !pending && FirstReply(dispatched, c.seqNo, c.since, c.slot.reply))
    && (c.phase == Assigned ==> c.slot == Empty && !pending)
    && (c.phase == Registered || c.phase == Waiting || c.phase == Expired ==>
          c.awaits && (c.slot == Empty ==> pending))
    && (pending ==> c.awaits && NoReply(dispatched, c.seqNo, c.since)
                    && (c.phase == Registered || c.phase == Waiting || c.phase == Expired
                        || c.phase == Finished(SendFailed)))
    && (c.phase == Finished(SendFailed) && c.awaits && c.slot == Empty ==> pending)
    && OutcomeFits(c, dispatched)
  }

  predicate GoodCalls(s: System) {
    forall id :: 0 <= id < |s.calls| ==> GoodCall(s.calls[id], IsPending(s, id), s.dispatched)
  }

  /** Every pending key is the number of the call it leads to. */
  predicate GoodPending(s: System) {
    forall key :: key in s.pending ==> s.pending[key] < |s.calls| && s.calls[s.pending[key]].seqNo == key
  }

  /** Dispatched frames are drained, in the inbox, discarded by a closed one, or the one being passed on. */
  predicate InboxBalance(s: System) {
    && |s.dispatched| == s.drained + s.inbox + s.discarded + (if s.reader.PassingOn? then 1 else 0)
    && s.inbox <= INBOX_CAPACITY
    && (s.open ==> s.discarded == 0)
  }

  /** What holds at any time of a run with at most 2^32 calls. */
  predicate Invariant(s: System) { Numbered(s) && GoodPending(s) && GoodCalls(s) && InboxBalance(s) }

  // ---------------------------------------------------------------- every step keeps the invariant

  /** A step that changes one call, and of the map at most that call's key. */
  lemma OneCallChanges(s: System, t: System, id: nat)
    requires Invariant(s) && |s.calls| <= TWO_32 && id < |s.calls|
    requires |t.calls| == |s.calls| && t.calls == s.calls[id := t.calls[id]]
    requires t.calls[id].seqNo == s.calls[id].seqNo && t.dispatched == s.dispatched
    requires forall key :: key != s.calls[id].seqNo ==>
               (key in t.pending <==> key in s.pending) && (key in s.pending ==> t.pending[key] == s.pending[key])
    requires s.calls[id].seqNo in t.pending ==> t.pending[s.calls[id].seqNo] == id
    requires GoodCall(t.calls[id], IsPending(t, id), t.dispatched)
    requires t.nextSeq == s.nextSeq && InboxBalance(t)
    ensures Invariant(t)
  {
    hide GoodCall, SeqOf, InboxBalance;
    forall other | 0 <= other < |s.calls| && other != id
      ensures IsPending(t, other) == IsPending(s, other)
    {
      SeqsDiffer(other, id);
    }
  }

  lemma AssignKeeps(s: System, awaits: bool)
    requires Invariant(s) && |s.calls| < TWO_32
    ensures Invariant(Step(s, Assign(awaits)))
  {
    hide GoodCall, SeqOf;
    var t := Step(s, Assign(awaits));
    NextSeq(|s.calls|);
    forall id | 0 <= id < |s.calls| ensures IsPending(t, id) == IsPending(s, id) {
    }
    NewCallIsGood(s.nextSeq, awaits, s.dispatched);
    assert !IsPending(t, |s.calls|);
  }

  lemma NewCallIsGood(seqNo: nat, awaits: bool, dispatched: seq<Frame>)
    ensures GoodCall(Call(seqNo, awaits, Assigned, Empty, 0), false, dispatched)
  {
  }

  /** While no two calls share a number, registering overwrites nobody's entry. */
  lemma RegisterKeeps(s: System, id: nat)
    requires Invariant(s) && |s.calls| <= TWO_32 && Enabled(s, Register(id))
    ensures Invariant(Step(s, Register(id)))
  {
    hide SeqOf, OutcomeFits, GoodCalls, GoodPending, Numbered;
    assert s.calls[id].seqNo !in s.pending by {
      OwnKeyOnly(s, id);
    }
    assert GoodCall(s.calls[id], IsPending(s, id), s.dispatched) by {
      EachCall(s, id);
    }
    var t := Step(s, Register(id));
    OutcomeOnlyWhenFinished(t.calls[id], s.dispatched);
    OneCallChanges(s, t, id);
  }

  lemma OutcomeOnlyWhenFinished(c: Call, dispatched: seq<Frame>)
    requires !c.phase.Finished?
    ensures OutcomeFits(c, dispatched)
  {
  }

  lemma EachCall(s: System, id: nat)
    requires Invariant(s) && id < |s.calls|
    ensures GoodCall(s.calls[id], IsPending(s, id), s.dispatched)
    ensures s.calls[id].seqNo == SeqOf(id)
  {
  }

  /** An entry under a call's number is that call's own. */
  lemma OwnKeyOnly(s: System, id: nat)
    requires Invariant(s) && |s.calls| <= TWO_32 && id < |s.calls|
    ensures s.calls[id].seqNo in s.pending ==>
              s.pending[s.calls[id].seqNo] == id && IsPending(s, id)
              && !s.calls[id].phase.Assigned?
  {
    hide SeqOf;
    if s.calls[id].seqNo in s.pending && s.pending[s.calls[id].seqNo] != id {
      SeqsDiffer(id, s.pending[s.calls[id].seqNo]);
    }
  }

  lemma CallStepKeeps(s: System, a: Action)
    requires Invariant(s) && |s.calls| <= TWO_32 && Enabled(s, a)
    requires a.Submit? || a.Take? || a.Expire? || a.Remove?
    ensures Invariant(Step(s, a))
  {
    hide SeqOf, GoodCalls, GoodPending, Numbered, FirstReply, NoReply;
    OwnKeyOnly(s, a.id);
    EachCall(s, a.id);
    if a.Take? {
      ReplyIsThere(s, a.id);
    }
    OneCallChanges(s, Step(s, a), a.id);
  }

  lemma ReplyIsThere(s: System, id: nat)
    requires Invariant(s) && id < |s.calls| && s.calls[id].slot != Empty
    ensures s.calls[id].slot.Filled? && s.calls[id].slot.reply < |s.dispatched|
  {
    EachCall(s, id);
  }

  /** A frame that is not for this call. */
  lemma OtherFrame(c: Call, pending: bool, dispatched: seq<Frame>, f: Frame)
    requires GoodCall(c, pending, dispatched)
    requires pending && c.seqNo > 0 ==> f.resp != c.seqNo
    ensures GoodCall(c, pending, dispatched + [f])
  {
  }

  /** The frame that answers a pending call. */
  lemma OwnFrame(c: Call, dispatched: seq<Frame>, f: Frame)
    requires GoodCall(c, true, dispatched) && f.resp == c.seqNo > 0
    ensures c.slot == Empty
    ensures GoodCall(c.(slot := Filled(|dispatched|)), false, dispatched + [f])
  {
  }

  lemma DispatchKeeps(s: System)
    requires Invariant(s) && |s.calls| <= TWO_32 && Enabled(s, Dispatch)
    ensures Invariant(Step(s, Dispatch))
  {
    hide GoodCall, SeqOf;
    var f, t := s.reader.frame, Step(s, Dispatch);
    forall id | 0 <= id < |s.calls|
      ensures GoodCall(t.calls[id], IsPending(t, id), t.dispatched) && t.calls[id].seqNo == s.calls[id].seqNo
    {
      DispatchKeepsCall(s, id);
    }
  }

  lemma DispatchKeepsCall(s: System, id: nat)
    requires Invariant(s) && |s.calls| <= TWO_32 && Enabled(s, Dispatch) && id < |s.calls|
    ensures var t := Step(s, Dispatch);
            |t.calls| == |s.calls| && t.calls[id].seqNo == s.calls[id].seqNo
            && GoodCall(t.calls[id], IsPending(t, id), t.dispatched)
  {
    hide GoodCall, SeqOf, Numbered, GoodCalls, InboxBalance;
    var f, c := s.reader.frame, s.calls[id];
    EachCall(s, id);
    OwnKeyOnly(s, id);
    if f.resp > 0 && f.resp == c.seqNo && f.resp in s.pending {
      OwnFrame(c, s.dispatched, f);
    } else {
      OtherFrame(c, IsPending(s, id), s.dispatched, f);
    }
  }

  lemma StepKeepsInvariant(s: System, a: Action)
    requires Invariant(s) && Enabled(s, a) && |Step(s, a).calls| <= TWO_32
    ensures Invariant(Step(s, a))
  {
    hide GoodCall, Numbered, GoodPending;
    match a
    case Assign(awaits) => AssignKeeps(s, awaits);
    case Register(id) => RegisterKeeps(s, id);
    case Dispatch => DispatchKeeps(s);
    case Submit(_, _) => CallStepKeeps(s, a);
    case Take(_) => CallStepKeeps(s, a);
    case Expire(_) => CallStepKeeps(s, a);
    case Remove(_) => CallStepKeeps(s, a);
    case _ => ReaderStepKeeps(s, a);
  }

  lemma ReaderStepKeeps(s: System, a: Action)
    requires Invariant(s) && Enabled(s, a) && (a.Arrive? || a.PassOn? || a.Drain? || a.CloseMessages?)
    ensures Invariant(Step(s, a))
  {
    hide GoodCall;
    forall id | 0 <= id < |s.calls| ensures IsPending(Step(s, a), id) == IsPending(s, id) {
    }
  }

  lemma CallsOnlyGrow(s: System, a: Action)
    requires Enabled(s, a)
    ensures |s.calls| <= |Step(s, a).calls|
  {
  }

  lemma {:induction false} RunKeepsInvariant(run: seq<Action>)
    ensures After(run).Some? && |After(run).value.calls| <= TWO_32 ==> Invariant(After(run).value)
  {
    hide Invariant, Enabled, Step;
    if run == [] {
      ConnectedIsGood();
    } else {
      var before, a := After(run[..|run| - 1]), run[|run| - 1];
      RunKeepsInvariant(run[..|run| - 1]);
      if before.Some? && Enabled(before.value, a) {
        CallsOnlyGrow(before.value, a);
        if |Step(before.value, a).calls| <= TWO_32 {
          StepKeepsInvariant(before.value, a);
        }
      }
    }
  }

  lemma ConnectedIsGood()
    ensures Invariant(CONNECTED)
  {
  }

  // ---------------------------------------------------------------- what a caller can rely on

  lemma {:induction false} RunIsNumbered(run: seq<Action>)
    ensures After(run).Some? ==> Numbered(After(run).value)
  {
    hide Numbered, Enabled, Step;
    if run == [] {
      FirstSeq();
    } else {
      var before := After(run[..|run| - 1]);
      RunIsNumbered(run[..|run| - 1]);
      if before.Some? && Enabled(before.value, run[|run| - 1]) {
        StepIsNumbered(before.value, run[|run| - 1]);
      }
    }
  }

  lemma StepIsNumbered(s: System, a: Action)
    requires Numbered(s) && Enabled(s, a)
    ensures Numbered(Step(s, a))
  {
    hide SeqOf, Increment, OutcomeOf;
    NextSeq(|s.calls|);
  }

  lemma FirstSeq()
    ensures Numbered(CONNECTED)
  {
  }

  /** In every run, however long, two calls carry the same number exactly when a multiple of 2^32 calls
      lies between them. */
  lemma SeqRepeatsIff(run: seq<Action>, i: nat, j: nat)
    requires After(run).Some? && i < |After(run).value.calls| && j < |After(run).value.calls|
    ensures After(run).value.calls[i].seqNo == After(run).value.calls[j].seqNo <==> (j - i) % TWO_32 == 0
  {
    hide After, SeqOf;
    RunIsNumbered(run);
    SameSeqIff(i, j);
  }

  /** In every run of at most 2^32 calls, no number is used twice. */
  lemma SeqsAreNeverReused(run: seq<Action>, i: nat, j: nat)
    requires After(run).Some? && |After(run).value.calls| <= TWO_32
    requires i < |After(run).value.calls| && j < |After(run).value.calls| && i != j
    ensures After(run).value.calls[i].seqNo != After(run).value.calls[j].seqNo
  {
    hide After, GoodCalls, GoodPending, InboxBalance;
    RunKeepsInvariant(run);
    SeqsDiffer(i, j);
  }

  /** A request that returns a value, or an error code, got it from the first frame dispatched since it
      registered that answers its own number, with code zero, or with that code. It is never told that
      the channel closed. */
  lemma RepliesAreOwn(run: seq<Action>, id: nat)
    requires After(run).Some? && |After(run).value.calls| <= TWO_32 && id < |After(run).value.calls|
    ensures var s := After(run).value;
            var c := s.calls[id];
            c.phase.Finished? ==>
              && c.phase.outcome != ChannelClosed
              && (c.phase.outcome.Replied? || c.phase.outcome.Rejected? ==>
                    c.slot.Filled? && FirstReply(s.dispatched, c.seqNo, c.since, c.slot.reply))
              && (c.phase.outcome.Replied? ==>
                    c.phase.outcome.frame == s.dispatched[c.slot.reply] && c.phase.outcome.frame.code == 0)
              && (c.phase.outcome.Rejected? ==> c.phase.outcome.code == s.dispatched[c.slot.reply].code != 0)
  {
    hide After, Numbered, GoodPending, InboxBalance, FirstReply;
    RunKeepsInvariant(run);
    EachCall(After(run).value, id);
  }

  /** Every pending key belongs to a request that is registered, waiting, expired and not yet removed, or
      whose send failed; and a listening request without a reply is pending. */
  lemma PendingKeysAreExplained(run: seq<Action>)
    requires After(run).Some? && |After(run).value.calls| <= TWO_32
    ensures var s := After(run).value;
            && (forall key :: key in s.pending ==>
                  s.pending[key] < |s.calls| && s.calls[s.pending[key]].seqNo == key
                  && s.calls[s.pending[key]].phase in {Registered, Waiting, Expired, Finished(SendFailed)})
            && (forall id :: 0 <= id < |s.calls| && s.calls[id].phase in {Registered, Waiting} ==>
                  s.calls[id].slot.Filled? || IsPending(s, id))
  {
    hide After, Numbered, InboxBalance, FirstReply, NoReply, OutcomeFits;
    RunKeepsInvariant(run);
    var s := After(run).value;
    forall key | key in s.pending
      ensures s.pending[key] < |s.calls| && s.calls[s.pending[key]].seqNo == key
              && s.calls[s.pending[key]].phase in {Registered, Waiting, Expired, Finished(SendFailed)}
    {
      EachCall(s, s.pending[key]);
    }
    forall id | 0 <= id < |s.calls| && s.calls[id].phase in {Registered, Waiting}
      ensures s.calls[id].slot.Filled? || IsPending(s, id)
    {
      EachCall(s, id);
    }
  }

  /** A returned call never changes again, however the run goes on: it has one outcome. */
  lemma {:induction false} OutcomeIsFinal(run: seq<Action>, more: seq<Action>, id: nat)
    requires After(run).Some? && id < |After(run).value.calls| && After(run).value.calls[id].phase.Finished?
    ensures After(run + more).Some? ==>
              id < |After(run + more).value.calls|
              && After(run + more).value.calls[id].phase == After(run).value.calls[id].phase
  {
    hide Enabled, Step;
    if more == [] {
      assert run + more == run;
    } else {
      var n := |more| - 1;
      OutcomeIsFinal(run, more[..n], id);
      assert (run + more)[..|run| + n] == run + more[..n];
      var before := After(run + more[..n]);
      if before.Some? && Enabled(before.value, more[n]) {
        FinishedStays(before.value, more[n], id);
      }
    }
  }

  lemma FinishedStays(s: System, a: Action, id: nat)
    requires Enabled(s, a) && id < |s.calls| && s.calls[id].phase.Finished?
    ensures id < |Step(s, a).calls| && Step(s, a).calls[id].phase == s.calls[id].phase
  {
  }

  // ---------------------------------------------------------------- what each return gives

  /** The frame numbered n is the first since then that answers the key, and this is what it makes of a call. */
  predicate Answers(dispatched: seq<Frame>, key: nat, since: nat, n: nat, outcome: Outcome) {
    && since <= n < |dispatched| && dispatched[n].resp == key > 0
    && (forall m :: since <= m < n ==> dispatched[m].resp != key)
    && outcome == (if dispatched[n].code == 0 then Replied(dispatched[n]) else Rejected(dispatched[n].code))
  }

  /** A request that takes its reply returns it: the first frame dispatched after it registered that answers
      its number, as a value when its code is zero and as that code otherwise. */
  lemma TakingReturnsTheReply(before: seq<Action>, between: seq<Action>, id: nat)
    requires var end := After(before + [Register(id)] + between + [Take(id)]);
             end.Some? && |end.value.calls| <= TWO_32
    ensures After(before).Some?
    ensures var end := After(before + [Register(id)] + between + [Take(id)]).value;
            && id < |end.calls| && end.calls[id].phase.Finished?
            && exists n :: Answers(end.dispatched, end.calls[id].seqNo, |After(before).value.dispatched|, n,
                                   end.calls[id].phase.outcome)
  {
    hide After, Enabled;
    var registered := before + [Register(id)];
    LastStep(registered + between, Take(id));
    SinceRegistering(before, between, id);
    var s := After(registered + between).value;
    TakeIsExact(s, id) by {
      assert Invariant(s) by {
        CallsOnlyGrow(s, Take(id));
        RunKeepsInvariant(registered + between);
      }
      EachCall(s, id);
    }
  }

  lemma LastStep(run: seq<Action>, a: Action)
    requires After(run + [a]).Some?
    ensures After(run).Some? && Enabled(After(run).value, a)
    ensures After(run + [a]) == Some(Step(After(run).value, a))
  {
    assert (run + [a])[..|run|] == run;
  }

  lemma TakeIsExact(s: System, id: nat)
    requires Enabled(s, Take(id)) && GoodCall(s.calls[id], IsPending(s, id), s.dispatched)
    ensures var t := Step(s, Take(id));
            && t.calls[id].phase.Finished? && t.calls[id].seqNo == s.calls[id].seqNo && t.dispatched == s.dispatched
            && exists n :: Answers(t.dispatched, t.calls[id].seqNo, s.calls[id].since, n, t.calls[id].phase.outcome)
  {
    var t := Step(s, Take(id));
    assert Answers(t.dispatched, t.calls[id].seqNo, s.calls[id].since, s.calls[id].slot.reply,
                   t.calls[id].phase.outcome);
  }

  /** A call notes how many frames had been dispatched when it registered, and keeps the note. */
  lemma {:induction false} SinceRegistering(before: seq<Action>, between: seq<Action>, id: nat)
    requires After(before + [Register(id)] + between).Some?
    ensures After(before).Some?
    ensures var s := After(before + [Register(id)] + between).value;
            && id < |s.calls| && s.calls[id].phase != Assigned
            && s.calls[id].since == |After(before).value.dispatched|
  {
    hide After, Step, Enabled;
    var registered := before + [Register(id)];
    if between == [] {
      assert registered + between == registered;
      LastStep(before, Register(id));
      RegisterNotes(After(before).value, id);
    } else {
      var n := |between| - 1;
      assert registered + between == registered + between[..n] + [between[n]];
      LastStep(registered + between[..n], between[n]);
      SinceRegistering(before, between[..n], id);
      NoteStays(After(registered + between[..n]).value, between[n], id);
    }
  }

  lemma RegisterNotes(s: System, id: nat)
    requires Enabled(s, Register(id))
    ensures var c := Step(s, Register(id)).calls;
            id < |c| && c[id].phase == Registered && c[id].since == |s.dispatched|
  {
  }

  lemma NoteStays(s: System, a: Action, id: nat)
    requires Enabled(s, a) && id < |s.calls| && s.calls[id].phase != Assigned
    ensures id < |Step(s, a).calls| && Step(s, a).calls[id].phase != Assigned
    ensures Step(s, a).calls[id].since == s.calls[id].since
  {
    hide OutcomeOf;
  }

  /** The steps a call has taken when it is where it is. */
  predicate HasCause(c: Call, id: nat, run: seq<Action>) {
    match c.phase
    case Expired => Expire(id) in run
    case Finished(TimedOut) => Expire(id) in run && Remove(id) in run
    case Finished(Submitted) => Submit(id, true) in run && !c.awaits
    case Finished(SendFailed) => Submit(id, false) in run
    case Finished(_) => Take(id) in run
    case _ => true
  }

  /** A call times out only when its timer has elapsed and it has removed its entry, fails to send only when
      the channel refused it, and gives a reply only when it took one. */
  lemma {:induction false} OutcomesHaveCauses(run: seq<Action>, id: nat)
    requires After(run).Some? && id < |After(run).value.calls|
    ensures HasCause(After(run).value.calls[id], id, run)
  {
    hide After, Enabled, Step, HasCause;
    if run == [] {
      NothingFed();
    } else {
      var n := |run| - 1;
      assert run == run[..n] + [run[n]];
      LastStep(run[..n], run[n]);
      var s := After(run[..n]).value;
      if id < |s.calls| {
        OutcomesHaveCauses(run[..n], id);
        CauseStep(s, run[n], id, run[..n]);
      } else {
        NewHasCause(s, run[n], id, run);
      }
    }
  }

  lemma NewHasCause(s: System, a: Action, id: nat, run: seq<Action>)
    requires Enabled(s, a) && |s.calls| <= id < |Step(s, a).calls|
    ensures HasCause(Step(s, a).calls[id], id, run)
  {
  }

  lemma CauseStep(s: System, a: Action, id: nat, run: seq<Action>)
    requires Enabled(s, a) && id < |s.calls| && HasCause(s.calls[id], id, run)
    ensures id < |Step(s, a).calls| && HasCause(Step(s, a).calls[id], id, run + [a])
  {
  }

  /** A waiting request gets the answer that arrives: it can be dispatched and taken, and this is the result. */
  lemma AnswerReturns(run: seq<Action>, id: nat, f: Frame)
    requires After(run).Some? && |After(run).value.calls| <= TWO_32 && After(run).value.reader.Listening?
    requires id < |After(run).value.calls|
    requires var c := After(run).value.calls[id]; c.phase == Waiting && c.slot == Empty && f.resp == c.seqNo > 0
    ensures var end := After(run + [Arrive(f), Dispatch, Take(id)]);
            && end.Some? && id < |end.value.calls|
            && end.value.calls[id].phase == Finished(if f.code == 0 then Replied(f) else Rejected(f.code))
            && f.resp !in end.value.pending
  {
    hide After;
    var s := After(run).value;
    OneMore(run, Arrive(f));
    OneMore(run + [Arrive(f)], Dispatch);
    RunKeepsInvariant(run);
    EachCall(s, id);
    var dispatched := run + [Arrive(f)] + [Dispatch];
    assert After(dispatched).value.calls[id].slot == Filled(|s.dispatched|);
    OneMore(dispatched, Take(id));
    assert dispatched + [Take(id)] == run + [Arrive(f), Dispatch, Take(id)];
  }

  /** A waiting request can take a reply exactly when it has one, and can time out in any case, even then; that
      takes its entry away. */
  lemma WaitingCanEnd(run: seq<Action>, id: nat)
    requires After(run).Some? && id < |After(run).value.calls| && After(run).value.calls[id].phase == Waiting
    ensures After(run + [Take(id)]).Some? <==> After(run).value.calls[id].slot != Empty
    ensures var end := After(run + [Expire(id), Remove(id)]);
            && end.Some? && id < |end.value.calls| && end.value.calls[id].phase == Finished(TimedOut)
            && After(run).value.calls[id].seqNo !in end.value.pending
  {
    hide After;
    if After(run).value.calls[id].slot != Empty {
      OneMore(run, Take(id));
    }
    if After(run + [Take(id)]).Some? {
      LastStep(run, Take(id));
    }
    OneMore(run, Expire(id));
    OneMore(run + [Expire(id)], Remove(id));
    assert run + [Expire(id)] + [Remove(id)] == run + [Expire(id), Remove(id)];
  }

  /** What the other steps of a call leave: an accepted send puts its number last on the wire, a refused one
      leaves the wire alone, a timeout takes the entry away. */
  lemma CallStepsAreExact(run: seq<Action>, id: nat)
    ensures var t := After(run + [Submit(id, true)]);
            t.Some? ==>
              var s, c := After(run).value, t.value.calls[id];
              && t.value.wire == s.wire + [c.seqNo] && t.value.pending == s.pending
              && c.phase == (if c.awaits then Waiting else Finished(Submitted))
    ensures var t := After(run + [Submit(id, false)]);
            t.Some? ==>
              && t.value.wire == After(run).value.wire && t.value.pending == After(run).value.pending
              && t.value.calls[id].phase == Finished(SendFailed)
    ensures var t := After(run + [Remove(id)]);
            t.Some? ==>
              && t.value.pending == After(run).value.pending - {t.value.calls[id].seqNo}
              && t.value.calls[id].phase == Finished(TimedOut)
  {
    hide After;
    forall a | After(run + [a]).Some? ensures After(run).Some? && Enabled(After(run).value, a)
                                              && After(run + [a]) == Some(Step(After(run).value, a)) {
      LastStep(run, a);
    }
  }

  // ---------------------------------------------------------------- what draining decides

  /** The read task waits for room in an open, full channel. */
  predicate Stalled(s: System) { s.open && s.reader.PassingOn? && s.inbox >= INBOX_CAPACITY }

  /** While the caller keeps its receiver, at most 201 frames are dispatched beyond those drained, and the
      read task is stalled exactly when there are that many. */
  lemma {:induction false} DispatchedIsBounded(run: seq<Action>)
    requires After(run).Some?
    ensures var s := After(run).value;
            && InboxBalance(s)
            && (s.open ==> |s.dispatched| <= s.drained + INBOX_CAPACITY + 1
                           && (Stalled(s) <==> |s.dispatched| == s.drained + INBOX_CAPACITY + 1))
  {
    hide Enabled, Step;
    if run != [] {
      var before := After(run[..|run| - 1]).value;
      DispatchedIsBounded(run[..|run| - 1]);
      BalanceStep(before, run[|run| - 1]);
    }
  }

  lemma BalanceStep(s: System, a: Action)
    requires InboxBalance(s) && Enabled(s, a)
    ensures InboxBalance(Step(s, a))
  {
    hide OutcomeOf, DropSender;
  }

  /** Nothing is taken from the channel and its receiver stays. */
  predicate Undrained(more: seq<Action>) { Drain !in more && CloseMessages !in more }

  /** Once the read task is stalled the run can go on in any way: without draining no further frame is
      dispatched. */
  lemma {:induction false} StalledUntilDrained(run: seq<Action>, more: seq<Action>)
    requires After(run).Some? && Stalled(After(run).value) && Undrained(more)
    ensures var s, t := After(run).value, After(run + more);
            t.Some? ==> Stalled(t.value) && t.value.dispatched == s.dispatched
  {
    hide Enabled, Step, Stalled;
    if more == [] {
      assert run + more == run;
    } else {
      var n := |more| - 1;
      StalledUntilDrained(run, more[..n]);
      assert (run + more)[..|run| + n] == run + more[..n];
      var before := After(run + more[..n]);
      if before.Some? && Enabled(before.value, more[n]) {
        StalledStep(before.value, more[n]);
      }
    }
  }

  lemma StalledStep(s: System, a: Action)
    requires Stalled(s) && Enabled(s, a) && a != Drain && a != CloseMessages
    ensures Stalled(Step(s, a)) && Step(s, a).dispatched == s.dispatched
  {
  }

  lemma OneMore(run: seq<Action>, a: Action)
    requires After(run).Some? && Enabled(After(run).value, a)
    ensures After(run + [a]) == Some(Step(After(run).value, a))
  {
    assert (run + [a])[..|run|] == run;
  }

  /** In any state that is not stalled the read task gets to dispatch a frame of its own accord. */
  lemma DispatchGoesOn(run: seq<Action>, f: Frame) returns (more: seq<Action>)
    requires After(run).Some? && !Stalled(After(run).value)
    ensures Undrained(more) && After(run + more).Some?
    ensures |After(run + more).value.dispatched| == |After(run).value.dispatched| + 1
  {
    hide After, OnDispatch;
    DispatchedIsBounded(run);
    var s := After(run).value;
    more := [];
    assert run + more == run;
    if s.reader.PassingOn? {
      OneMore(run + more, PassOn);
      assert run + more + [PassOn] == run + (more + [PassOn]);
      more := more + [PassOn];
    }
    if After(run + more).value.reader.Listening? {
      OneMore(run + more, Arrive(f));
      assert run + more + [Arrive(f)] == run + (more + [Arrive(f)]);
      more := more + [Arrive(f)];
    }
    OneMore(run + more, Dispatch);
    DispatchAddsOne(After(run + more).value);
    assert run + more + [Dispatch] == run + (more + [Dispatch]);
    more := more + [Dispatch];
  }

  lemma DispatchAddsOne(s: System)
    requires s.reader.Dispatching?
    ensures |OnDispatch(s).dispatched| == |s.dispatched| + 1
  {
  }

  /** From any reachable state a further frame can be dispatched without draining if and only if the read
      task is not stalled. */
  lemma DispatchGoesOnIff(run: seq<Action>)
    requires After(run).Some?
    ensures (exists more :: Undrained(more) && After(run + more).Some?
                            && |After(run + more).value.dispatched| > |After(run).value.dispatched|)
            <==> !Stalled(After(run).value)
  {
    hide After, Stalled, Undrained;
    if Stalled(After(run).value) {
      forall more | Undrained(more) && After(run + more).Some?
        ensures |After(run + more).value.dispatched| == |After(run).value.dispatched|
      {
        StalledUntilDrained(run, more);
      }
    } else {
      var more := DispatchGoesOn(run, Frame(0, 0, []));
    }
  }

  /** Frames arriving one by one, each dispatched and passed on. */
  function Feed(frames: seq<Frame>): seq<Action> {
    if frames == [] then [] else Feed(frames[..|frames| - 1]) + [Arrive(frames[|frames| - 1]), Dispatch, PassOn]
  }

  lemma {:induction false} FeedWorks(frames: seq<Frame>)
    requires |frames| <= INBOX_CAPACITY
    ensures Undrained(Feed(frames)) && After(Feed(frames)).Some?
    ensures var s := After(Feed(frames)).value;
            s.dispatched == frames && s.inbox == |frames| && s.open && s.reader.Listening? && s.drained == 0
  {
    hide After, Enabled, Step;
    if frames == [] {
      NothingFed();
    } else {
      var n := |frames| - 1;
      var before, f := Feed(frames[..n]), frames[n];
      FeedWorks(frames[..n]);
      DispatchOne(before, f);
      PassOnOne(before + [Arrive(f), Dispatch]);
      assert before + [Arrive(f), Dispatch] + [PassOn] == before + [Arrive(f), Dispatch, PassOn];
    }
  }

  lemma NothingFed()
    ensures After([]) == Some(CONNECTED)
  {
  }

  lemma DispatchOne(run: seq<Action>, f: Frame)
    requires After(run).Some? && After(run).value.reader.Listening?
    ensures var s, t := After(run).value, After(run + [Arrive(f), Dispatch]);
            t.Some? && t.value.reader.PassingOn? && t.value.dispatched == s.dispatched + [f]
            && t.value.inbox == s.inbox && t.value.open == s.open && t.value.drained == s.drained
  {
    hide After;
    OneMore(run, Arrive(f));
    OneMore(run + [Arrive(f)], Dispatch);
    assert run + [Arrive(f)] + [Dispatch] == run + [Arrive(f), Dispatch];
  }

  lemma PassOnOne(run: seq<Action>)
    requires After(run).Some?
    requires var s := After(run).value; s.reader.PassingOn? && s.open && s.inbox < INBOX_CAPACITY
    ensures After(run + [PassOn])
            == Some(After(run).value.(reader := Listening, inbox := After(run).value.inbox + 1))
  {
    hide After;
    OneMore(run, PassOn);
  }

  /** A caller that never drains: any 201 frames can be dispatched one after another, which stalls the read
      task, and no run dispatches a 202nd. */
  lemma StallsAfter201(frames: seq<Frame>, run: seq<Action>)
    requires |frames| == 201
    ensures var fed := Feed(frames[..200]) + [Arrive(frames[200]), Dispatch];
            && Undrained(fed) && After(fed).Some?
            && After(fed).value.dispatched == frames && Stalled(After(fed).value)
    ensures Undrained(run) && After(run).Some? ==> |After(run).value.dispatched| <= 201
  {
    hide After, Feed;
    FeedWorks(frames[..200]);
    DispatchOne(Feed(frames[..200]), frames[200]);
    assert frames == frames[..200] + [frames[200]];
    if Undrained(run) && After(run).Some? {
      DispatchedIsBounded(run);
      UndrainedRun(run);
    }
  }

  lemma {:induction false} UndrainedRun(run: seq<Action>)
    requires Undrained(run) && After(run).Some?
    ensures After(run).value.open && After(run).value.drained == 0
  {
    if run != [] {
      UndrainedRun(run[..|run| - 1]);
    }
  }

  // ---------------------------------------------------------------- entries left behind

  /** In every run of at most 2^32 calls a request that has returned is still in the map if and only if its
      send failed and no frame had answered it first. */
  lemma FailedSendLeaks(run: seq<Action>, id: nat)
    requires After(run).Some? && |After(run).value.calls| <= TWO_32 && id < |After(run).value.calls|
    requires After(run).value.calls[id].awaits && After(run).value.calls[id].phase.Finished?
    ensures var c := After(run).value.calls[id];
            IsPending(After(run).value, id) <==> c.phase == Finished(SendFailed) && c.slot == Empty
  {
    hide After, Numbered, GoodPending, InboxBalance, FirstReply, NoReply, OutcomeFits;
    RunKeepsInvariant(run);
    EachCall(After(run).value, id);
  }

  /** And one does get left behind. */
  lemma OneEntryLeft()
    ensures var r := After([Assign(true), Register(0), Submit(0, false)]);
            r.Some? && r.value.calls == [Call(1, true, Finished(SendFailed), Empty, 0)]
            && r.value.pending == map[1 := 0]
  {
    var run := [Assign(true), Register(0), Submit(0, false)];
    assert run[..2] == [Assign(true), Register(0)] && run[..2][..1] == [Assign(true)];
    assert run[..2][..1][..0] == [];
    assert After(run[..2][..1]).Some?;
    assert After(run[..2]).Some?;
  }

  // ---------------------------------------------------------------- the order on the wire

  /** Numbered but not yet handed to the write task. */
  predicate Unsent(c: Call) { c.phase == Assigned || c.phase == Registered }

  predicate OneUnsent(s: System) {
    forall i, j :: 0 <= i < j < |s.calls| ==> !(Unsent(s.calls[i]) && Unsent(s.calls[j]))
  }

  /** No two calls are ever unsent at the same time: none is started while another is unsent. */
  predicate OneAtATime(run: seq<Action>) {
    && After(run).Some? && OneUnsent(After(run).value)
    && (run == [] || OneAtATime(run[..|run| - 1]))
  }

  predicate Ascending(wire: seq<nat>) { forall i, j :: 0 <= i < j < |wire| ==> wire[i] < wire[j] }

  /** Everything on the wire comes before whatever is still unsent. */
  predicate WireIsBehind(s: System) {
    && Ascending(s.wire)
    && (forall k :: 0 <= k < |s.wire| ==> s.wire[k] <= |s.calls|)
    && (forall k, i :: 0 <= k < |s.wire| && 0 <= i < |s.calls| && Unsent(s.calls[i]) ==> s.wire[k] < s.calls[i].seqNo)
  }

  /** Starting no call while another is unsent keeps the wire in the order of the numbers. */
  lemma {:induction false} WireFollowsNumbers(run: seq<Action>)
    requires OneAtATime(run) && |After(run).value.calls| < TWO_32
    ensures Ascending(After(run).value.wire) && WireIsBehind(After(run).value)
  {
    hide Enabled, Step, SeqOf, OneUnsent, WireIsBehind, Numbered;
    if run == [] {
      WireStartsEmpty();
    } else {
      var before, a := After(run[..|run| - 1]).value, run[|run| - 1];
      CallsOnlyGrow(before, a);
      WireFollowsNumbers(run[..|run| - 1]);
      RunIsNumbered(run[..|run| - 1]);
      WireStep(before, a);
    }
    assert Ascending(After(run).value.wire) by {
      BehindIsAscending(After(run).value);
    }
  }

  lemma WireStartsEmpty()
    ensures WireIsBehind(CONNECTED)
  {
  }

  lemma BehindIsAscending(s: System)
    requires WireIsBehind(s)
    ensures Ascending(s.wire)
  {
  }

  lemma SmallSeq(i: nat)
    requires i < TWO_32 - 1
    ensures SeqOf(i) == i + 1
  {
  }

  lemma WireStep(s: System, a: Action)
    requires Enabled(s, a) && WireIsBehind(s) && Numbered(s) && OneUnsent(s) && |Step(s, a).calls| < TWO_32
    ensures WireIsBehind(Step(s, a))
  {
    hide SeqOf, InboxBalance, OutcomeOf;
    var t := Step(s, a);
    if a.Assign? {
      SmallSeq(|s.calls|);
    } else {
      forall i | 0 <= i < |s.calls|
        ensures t.calls[i].seqNo == s.calls[i].seqNo && (Unsent(t.calls[i]) ==> Unsent(s.calls[i]))
      {
      }
      if a.Submit? {
        SmallSeq(a.id);
        assert Unsent(s.calls[a.id]) && !Unsent(t.calls[a.id]);
      }
    }
  }

  /** A call not yet sent can be sent next, whatever the others do. */
  lemma SendNext(run: seq<Action>, id: nat) returns (more: seq<Action>)
    requires After(run).Some? && id < |After(run).value.calls| && Unsent(After(run).value.calls[id])
    ensures After(run + more).Some? && NoneStarted(more)
    ensures var s, t := After(run).value, After(run + more).value;
            && |t.calls| == |s.calls| && t.wire == s.wire + [s.calls[id].seqNo]
            && forall i :: 0 <= i < |s.calls| && i != id ==>
                 t.calls[i].seqNo == s.calls[i].seqNo && t.calls[i].phase == s.calls[i].phase
  {
    hide After;
    more := [];
    assert run + more == run;
    var s := After(run).value;
    RunKeepsKinds(run);
    if s.calls[id].awaits && s.calls[id].phase == Assigned {
      OneMore(run, Register(id));
      more := [Register(id)];
    }
    OneMore(run + more, Submit(id, true));
    assert run + more + [Submit(id, true)] == run + (more + [Submit(id, true)]);
    more := more + [Submit(id, true)];
  }

  predicate KindsFit(s: System) {
    forall i :: 0 <= i < |s.calls| && s.calls[i].phase == Registered ==> s.calls[i].awaits
  }

  lemma {:induction false} RunKeepsKinds(run: seq<Action>)
    requires After(run).Some?
    ensures KindsFit(After(run).value)
  {
    hide Enabled, Step, KindsFit;
    if run == [] {
      NoKinds();
    } else {
      RunKeepsKinds(run[..|run| - 1]);
      KindsStep(After(run[..|run| - 1]).value, run[|run| - 1]);
    }
  }

  lemma NoKinds()
    ensures KindsFit(CONNECTED)
  {
  }

  lemma KindsStep(s: System, a: Action)
    requires KindsFit(s) && Enabled(s, a)
    ensures KindsFit(Step(s, a))
  {
    hide OutcomeOf;
  }

  /** From any reachable state with two unsent calls the later number can reach the wire first. */
  lemma WireOrderCanDiffer(run: seq<Action>, i: nat, j: nat) returns (more: seq<Action>)
    requires After(run).Some? && i < j < |After(run).value.calls|
    requires Unsent(After(run).value.calls[i]) && Unsent(After(run).value.calls[j])
    ensures After(run + more).Some? && NoneStarted(more)
    ensures var s := After(run).value;
            After(run + more).value.wire == s.wire + [s.calls[j].seqNo, s.calls[i].seqNo]
  {
    hide After;
    var first := SendNext(run, j);
    var second := SendNext(run + first, i);
    more := first + second;
    assert run + first + second == run + more;
  }

  predicate NoneStarted(more: seq<Action>) { forall a :: a in more ==> !a.Assign? }

  /** With one call unsent the wire gets at most that one, as long as no call is started. */
  lemma {:induction false} AtMostOneSent(run: seq<Action>, more: seq<Action>)
    requires After(run).Some? && OneUnsent(After(run).value) && NoneStarted(more) && After(run + more).Some?
    ensures var s, t := After(run).value, After(run + more).value;
            && OneUnsent(t) && s.wire <= t.wire && |t.wire| <= |s.wire| + 1
            && (|t.wire| == |s.wire| + 1 ==> forall i :: 0 <= i < |t.calls| ==> !Unsent(t.calls[i]))
  {
    hide Enabled, Step;
    if more == [] {
      assert run + more == run;
    } else {
      var n := |more| - 1;
      assert (run + more)[..|run| + n] == run + more[..n];
      AtMostOneSent(run, more[..n]);
      SentStep(After(run + more[..n]).value, more[n]);
    }
  }

  lemma SentStep(s: System, a: Action)
    requires Enabled(s, a) && OneUnsent(s) && !a.Assign?
    ensures var t := Step(s, a);
            && OneUnsent(t) && s.wire <= t.wire && |t.calls| == |s.calls|
            && (t.wire != s.wire ==> |t.wire| == |s.wire| + 1 && exists i :: 0 <= i < |s.calls| && Unsent(s.calls[i]))
            && (forall i :: 0 <= i < |s.calls| && Unsent(t.calls[i]) ==> Unsent(s.calls[i]))
            && (t.wire != s.wire ==> forall i :: 0 <= i < |t.calls| ==> !Unsent(t.calls[i]))
  {
    hide OutcomeOf;
    var t := Step(s, a);
    forall i | 0 <= i < |s.calls| ensures Unsent(t.calls[i]) ==> Unsent(s.calls[i]) {
    }
    if a.Submit? {
      assert Unsent(s.calls[a.id]) && !Unsent(t.calls[a.id]);
    }
  }

  /** The calls started so far reach the wire in the order of their numbers, however the run goes on, if and
      only if at most one of them is still unsent. */
  lemma WireOrderIsSettledIff(run: seq<Action>)
    requires After(run).Some? && |After(run).value.calls| < TWO_32
    ensures (forall more :: NoneStarted(more) && After(run + more).Some? ==>
               |After(run).value.wire| <= |After(run + more).value.wire|
               && Ascending(After(run + more).value.wire[|After(run).value.wire|..]))
            <==> OneUnsent(After(run).value)
  {
    hide After, NoneStarted, SeqOf;
    var s := After(run).value;
    if OneUnsent(s) {
      forall more | NoneStarted(more) && After(run + more).Some?
        ensures |s.wire| <= |After(run + more).value.wire| && Ascending(After(run + more).value.wire[|s.wire|..])
      {
        AtMostOneSent(run, more);
      }
    } else {
      var i, j :| 0 <= i < j < |s.calls| && Unsent(s.calls[i]) && Unsent(s.calls[j]);
      var more := WireOrderCanDiffer(run, i, j);
      RunIsNumbered(run);
      SmallSeq(i);
      SmallSeq(j);
      var late := After(run + more).value.wire[|s.wire|..];
      assert late == [s.calls[j].seqNo, s.calls[i].seqNo];
      assert !Ascending(late) by {
        assert late[0] > late[1];
      }
    }
  }

  /** Two calls started before either is sent are enough. */
  lemma TwoOutOfOrder()
    ensures var r := After([Assign(false), Assign(false), Submit(1, true), Submit(0, true)]);
            r.Some? && r.value.wire == [2, 1]
  {
    var run := [Assign(false), Assign(false), Submit(1, true), Submit(0, true)];
    assert run[..3] == [Assign(false), Assign(false), Submit(1, true)];
    assert run[..3][..2] == [Assign(false), Assign(false)] && run[..3][..2][..1] == [Assign(false)];
    assert run[..3][..2][..1][..0] == [];
    assert After(run[..3][..2][..1]).Some?;
    assert After(run[..3][..2]).Some?;
    assert After(run[..3]).Some?;
  }
}
