// The car dispatch of src/kpi.rs, smart_send_car, against arbitrary replies to its refresh requests.
module CarDispatch {
  import opened Bytes
  import opened Sums

  const GUARDIAN_QUOTA := 4
  const GUARDED_COLOR := 5
  const TICKET_ITEM := 35002

  // ---------------------------------------------------------------- rewards

  /** The three fields of a reward that are looked at, where present with the expected JSON type. */
  datatype Reward = Reward(kind: Option<int>, item: Option<int>, amount: Option<nat>)

  datatype Prize = Prize(kind: int, item: int, amount: nat)

  const BIG_PRIZES := [
    Prize(3, 3201, 10), Prize(3, 1001, 10), Prize(3, 1022, 2000), Prize(2, 0, 2000),
    Prize(3, 1023, 5), Prize(3, 1022, 2500), Prize(3, 1001, 12)]

  /** Rust's `as i32` and `as u32`. */
  function AsI32(n: int): int { (n + 0x8000_0000) % TWO_32 - 0x8000_0000 }
  function AsU32(n: int): nat { n % TWO_32 }

  function OrZero(n: Option<int>): int { if n.Some? then n.value else 0 }
  function AmountOf(r: Reward): nat { if r.amount.Some? then r.amount.value else 0 }

  predicate Wins(r: Reward, p: Prize) {
    AsI32(OrZero(r.kind)) == p.kind && AsI32(OrZero(r.item)) == p.item && AsU32(AmountOf(r)) >= p.amount
  }

  predicate IsBigPrize(rewards: seq<Reward>) {
    exists i, j :: 0 <= i < |rewards| && 0 <= j < |BIG_PRIZES| && Wins(rewards[i], BIG_PRIZES[j])
  }

  predicate HasRefreshTicket(rewards: seq<Reward>) {
    exists i :: 0 <= i < |rewards| && rewards[i].kind == Some(3) && rewards[i].item == Some(TICKET_ITEM)
                && AmountOf(rewards[i]) > 0
  }

  predicate ShouldSend(wednesday: bool, rewards: seq<Reward>) {
    IsBigPrize(rewards) || (!wednesday && HasRefreshTicket(rewards))
  }

  /** The seven thresholds come to five: ten of 3201 or 1001, 2000 of 1022, five of 1023, or 2000 gold. */
  lemma BigPrizeIff(rewards: seq<Reward>)
    ensures IsBigPrize(rewards) <==>
            exists i :: 0 <= i < |rewards| && IsBigReward(rewards[i])
  {
    hide AsI32, AsU32, OrZero, AmountOf;
    forall i | 0 <= i < |rewards|
      ensures (exists j :: 0 <= j < |BIG_PRIZES| && Wins(rewards[i], BIG_PRIZES[j])) <==> IsBigReward(rewards[i])
    {
      BigRewardIff(rewards[i]);
    }
  }

  /** The casts keep the lowest 32 bits, read as signed or as unsigned. */
  lemma CastsKeepLowBits(n: int)
    ensures -0x8000_0000 <= AsI32(n) < 0x8000_0000 && (n - AsI32(n)) % 0x1_0000_0000 == 0
    ensures 0 <= AsU32(n) < 0x1_0000_0000 && (n - AsU32(n)) % 0x1_0000_0000 == 0
  {
    var q := (n + 0x8000_0000) / 0x1_0000_0000;
    assert n - AsI32(n) == q * 0x1_0000_0000;
    assert n - AsU32(n) == (n / 0x1_0000_0000) * 0x1_0000_0000;
  }

  /** A car is worth sending when one reward is a big prize or, except on Wednesday, at least one refresh ticket:
      type 3, item 35002, an amount above zero, each read without a cast. */
  lemma ShouldSendIff(wednesday: bool, rewards: seq<Reward>)
    ensures ShouldSend(wednesday, rewards) <==>
            exists i :: 0 <= i < |rewards| && (IsBigReward(rewards[i]) || (!wednesday && IsTicket(rewards[i])))
  {
    hide IsBigReward;
    BigPrizeIff(rewards);
    forall i | 0 <= i < |rewards|
      ensures IsTicket(rewards[i]) <==>
              rewards[i].kind == Some(3) && rewards[i].item == Some(TICKET_ITEM) && AmountOf(rewards[i]) > 0
    {
    }
  }

  predicate IsTicket(r: Reward) {
    r.kind == Some(3) && r.item == Some(35002) && r.amount.Some? && r.amount.value > 0
  }

  predicate IsBigReward(r: Reward) {
    var kind, item, amount := AsI32(OrZero(r.kind)), AsI32(OrZero(r.item)), AsU32(AmountOf(r));
    || (kind == 3 && item in {3201, 1001} && amount >= 10)
    || (kind == 3 && item == 1022 && amount >= 2000)
    || (kind == 3 && item == 1023 && amount >= 5)
    || (kind == 2 && item == 0 && amount >= 2000)
  }

  lemma BigRewardIff(r: Reward)
    ensures (exists j :: 0 <= j < |BIG_PRIZES| && Wins(r, BIG_PRIZES[j])) <==> IsBigReward(r)
  {
    hide AsI32, AsU32, OrZero, AmountOf;
    if IsBigReward(r) {
      assert Wins(r, BIG_PRIZES[0]) || Wins(r, BIG_PRIZES[1]) || Wins(r, BIG_PRIZES[2])
             || Wins(r, BIG_PRIZES[3]) || Wins(r, BIG_PRIZES[4]);
    }
  }

  // ---------------------------------------------------------------- guardians

  /** A legion member and the count that ranks it. */
  datatype Helper = Helper(id: Bytes, quench: nat)

  function InsertHelper(h: Helper, sorted: seq<Helper>): seq<Helper> {
    if sorted == [] then [h]
    else if h.quench > sorted[0].quench then [h] + sorted
    else [sorted[0]] + InsertHelper(h, sorted[1..])
  }

  /** The stable sort by falling count. */
  function SortHelpers(hs: seq<Helper>): seq<Helper> {
    if hs == [] then [] else InsertHelper(hs[|hs| - 1], SortHelpers(hs[..|hs| - 1]))
  }

  type Counts = map<Bytes, nat>

  function CountOf(counts: Counts, id: Bytes): nat { if id in counts then counts[id] else 0 }

  /** The first helper of the list with quota left. */
  function Guardian(sorted: seq<Helper>, counts: Counts): Option<Helper> {
    if sorted == [] then None
    else if CountOf(counts, sorted[0].id) < GUARDIAN_QUOTA then Some(sorted[0])
    else Guardian(sorted[1..], counts)
  }

  // ---------------------------------------------------------------- one car

  datatype Car = Car(id: Bytes, color: nat, sendAt: nat, refreshCount: nat, rewards: seq<Reward>)

  /** A refresh request's outcome; a success may leave out any field. */
  datatype Reply = Failed | Refreshed(refreshCount: Option<nat>, rewards: Option<seq<Reward>>)

  datatype Event =
    | Sent(car: Bytes, guardian: Option<Bytes>)
    | Refresh(car: Bytes, paid: bool)
    | RefreshFailed(car: Bytes)

  /** What dispatching leaves: guardian counts, tickets, requests made, replies unused, and whether it ended
      or still waits for a reply. */
  datatype Desk = Desk(counts: Counts, tickets: nat, log: seq<Event>, replies: seq<Reply>, done: bool)

  function NextCount(count: nat, r: Reply): nat
    requires r.Refreshed?
  {
    if r.refreshCount.Some? then AsU32(r.refreshCount.value) else count
  }

  function NextRewards(rewards: seq<Reward>, r: Reply): seq<Reward>
    requires r.Refreshed?
  {
    if r.rewards.Some? then r.rewards.value else rewards
  }

  /** The refresh loop of one car. */
  function RefreshLoop(wednesday: bool, car: Bytes, guardian: Option<Bytes>, count: nat, rewards: seq<Reward>,
                       d: Desk): (after: Desk)
    ensures |after.replies| <= |d.replies| && after.counts == d.counts
    decreases |d.replies|
  {
    if count > 0 && d.tickets == 0 then d.(log := d.log + [Sent(car, guardian)])
    else if d.replies == [] then d.(done := false)
    else
      var r, rest := d.replies[0], d.replies[1..];
      if r.Failed? then d.(log := d.log + [RefreshFailed(car)], replies := rest)
      else
        var next := d.(log := d.log + [Refresh(car, count > 0)], replies := rest,
                       tickets := if count > 0 then MinusOrZero(d.tickets, 1) else d.tickets);
        if ShouldSend(wednesday, NextRewards(rewards, r)) then next.(log := next.log + [Sent(car, guardian)])
        else RefreshLoop(wednesday, car, guardian, NextCount(count, r), NextRewards(rewards, r), next)
  }

  function Guarded(c: Car, sorted: seq<Helper>, d: Desk): Desk {
    var g := if c.color >= GUARDED_COLOR then Guardian(sorted, d.counts) else None;
    if g.Some? then d.(counts := d.counts[g.value.id := CountOf(d.counts, g.value.id) + 1]) else d
  }

  function GuardianId(c: Car, sorted: seq<Helper>, d: Desk): Option<Bytes> {
    var g := if c.color >= GUARDED_COLOR then Guardian(sorted, d.counts) else None;
    if g.Some? then Some(g.value.id) else None
  }

  function OneCar(wednesday: bool, sorted: seq<Helper>, c: Car, d: Desk): (after: Desk)
    ensures |after.replies| <= |d.replies|
  {
    if c.sendAt != 0 || !d.done then d
    else
      var guardian, guarded := GuardianId(c, sorted, d), Guarded(c, sorted, d);
      if ShouldSend(wednesday, c.rewards) then guarded.(log := guarded.log + [Sent(c.id, guardian)])
      else RefreshLoop(wednesday, c.id, guardian, c.refreshCount, c.rewards, guarded)
  }

  function AllCars(wednesday: bool, sorted: seq<Helper>, cars: seq<Car>, d: Desk): Desk {
    if cars == [] then d
    else OneCar(wednesday, sorted, cars[|cars| - 1], AllCars(wednesday, sorted, cars[..|cars| - 1], d))
  }

  // ---------------------------------------------------------------- the methods

  method RunRefreshLoop(wednesday: bool, car: Bytes, guardian: Option<Bytes>, refreshCount: nat,
                        rewards: seq<Reward>, d: Desk) returns (after: Desk)
    requires d.done
    ensures after == RefreshLoop(wednesday, car, guardian, refreshCount, rewards, d)
  {
    hide ShouldSend;
    var count, current := refreshCount, rewards;
    after := d;
    while true
      invariant after.done
      invariant RefreshLoop(wednesday, car, guardian, count, current, after)
                == RefreshLoop(wednesday, car, guardian, refreshCount, rewards, d)
      decreases |after.replies|
    {
      var free := count == 0;
      if !(free || after.tickets > 0) {
        after := after.(log := after.log + [Sent(car, guardian)]);
        return;
      }
      if after.replies == [] {
        after := after.(done := false);
        return;
      }
      var r := after.replies[0];
      after := after.(replies := after.replies[1..]);
      if r.Failed? {
        after := after.(log := after.log + [RefreshFailed(car)]);
        return;
      }
      after := after.(log := after.log + [Refresh(car, !free)]);
      count := NextCount(count, r);
      current := NextRewards(current, r);
      if !free {
        after := after.(tickets := MinusOrZero(after.tickets, 1));
      }
      if ShouldSend(wednesday, current) {
        after := after.(log := after.log + [Sent(car, guardian)]);
        return;
      }
    }
  }

  predicate Waiting(c: Car) { c.sendAt == 0 }

  function WaitingCars(cars: seq<Car>): nat {
    if cars == [] then 0 else WaitingCars(cars[..|cars| - 1]) + if Waiting(cars[|cars| - 1]) then 1 else 0
  }

  /** smart_send_car from the car list on: nothing when every car was sent today or none is waiting. */
  method SmartSendCar(wednesday: bool, sendCount: nat, countedToday: bool, members: seq<Helper>, cars: seq<Car>,
                      d: Desk) returns (after: Desk)
    requires d.done
    ensures after == if (countedToday && sendCount >= |cars|) || WaitingCars(cars) == 0 then d
                     else AllCars(wednesday, SortHelpers(members), cars, d)
  {
    hide ShouldSend, RefreshLoop, WaitingCars, SortHelpers;
    var effective := if countedToday then sendCount else 0;
    if effective >= |cars| {
      if |cars| == 0 {
        assert WaitingCars(cars) == 0 by { NoCarsWaiting(); }
      }
      return d;
    }
    if WaitingCars(cars) == 0 {
      return d;
    }
    var sorted := SortHelpers(members);
    after := d;
    for i := 0 to |cars|
      invariant after == AllCars(wednesday, sorted, cars[..i], d)
    {
      assert cars[..i + 1][..i] == cars[..i];
      var c := cars[i];
      if c.sendAt == 0 && after.done {
        var guardian := None;
        if c.color >= GUARDED_COLOR {
          var best := FindGuardian(sorted, after.counts);
          if best.Some? {
            guardian := Some(best.value.id);
            after := after.(counts := after.counts[best.value.id := CountOf(after.counts, best.value.id) + 1]);
          }
        }
        if ShouldSend(wednesday, c.rewards) {
          after := after.(log := after.log + [Sent(c.id, guardian)]);
        } else {
          after := RunRefreshLoop(wednesday, c.id, guardian, c.refreshCount, c.rewards, after);
        }
      }
    }
    assert cars[..|cars|] == cars;
  }

  lemma NoCarsWaiting()
    ensures WaitingCars([]) == 0
  {
  }

  method FindGuardian(sorted: seq<Helper>, counts: Counts) returns (g: Option<Helper>)
    ensures g == Guardian(sorted, counts)
  {
    for i := 0 to |sorted|
      invariant Guardian(sorted, counts) == Guardian(sorted[i..], counts)
    {
      if CountOf(counts, sorted[i].id) < GUARDIAN_QUOTA {
        return Some(sorted[i]);
      }
    }
    return None;
  }

  // ---------------------------------------------------------------- the best guardian with quota left

  predicate Falling(hs: seq<Helper>) { forall i, j :: 0 <= i < j < |hs| ==> hs[i].quench >= hs[j].quench }

  lemma {:induction false} InsertHelperSorts(h: Helper, sorted: seq<Helper>)
    requires Falling(sorted)
    ensures Falling(InsertHelper(h, sorted)) && |InsertHelper(h, sorted)| == |sorted| + 1
    ensures forall x :: x in InsertHelper(h, sorted) <==> x == h || x in sorted
  {
    if sorted != [] && h.quench <= sorted[0].quench {
      var rest := sorted[1..];
      assert sorted == [sorted[0]] + rest;
      assert Falling(rest) && forall x :: x in rest ==> x.quench <= sorted[0].quench;
      InsertHelperSorts(h, rest);
      FallingPrepend(sorted[0], InsertHelper(h, rest));
    } else if sorted != [] {
      FallingPrepend(h, sorted);
    }
  }

  lemma FallingPrepend(h: Helper, hs: seq<Helper>)
    requires Falling(hs) && forall x :: x in hs ==> x.quench <= h.quench
    ensures Falling([h] + hs)
  {
  }

  /** Sorting keeps the members and puts greater counts first. */
  lemma {:induction false} SortHelpersSorts(hs: seq<Helper>)
    ensures Falling(SortHelpers(hs)) && |SortHelpers(hs)| == |hs|
    ensures forall x :: x in SortHelpers(hs) <==> x in hs
  {
    if hs != [] {
      SortHelpersSorts(hs[..|hs| - 1]);
      InsertHelperSorts(hs[|hs| - 1], SortHelpers(hs[..|hs| - 1]));
      assert hs == hs[..|hs| - 1] + [hs[|hs| - 1]];
    }
  }

  lemma {:induction false} GuardianHasQuota(sorted: seq<Helper>, counts: Counts)
    ensures var g := Guardian(sorted, counts);
            g.Some? ==> g.value in sorted && CountOf(counts, g.value.id) < GUARDIAN_QUOTA
  {
    if sorted != [] {
      GuardianHasQuota(sorted[1..], counts);
    }
  }

  /** One more member is chosen only with quota left and a greater count than whoever was chosen before. */
  lemma {:induction false} GuardianAfterInsert(h: Helper, sorted: seq<Helper>, counts: Counts)
    requires Falling(sorted)
    ensures var g := Guardian(sorted, counts);
            Guardian(InsertHelper(h, sorted), counts)
            == if CountOf(counts, h.id) < GUARDIAN_QUOTA && (g.None? || h.quench > g.value.quench) then Some(h) else g
  {
    GuardianHasQuota(sorted, counts);
    if sorted != [] {
      GuardianAfterInsert(h, sorted[1..], counts);
      if h.quench > sorted[0].quench {
        assert ([h] + sorted)[1..] == sorted;
      } else {
        GuardianHasQuota(sorted[1..], counts);
      }
    }
  }

  /** Member i helps fewer than four cars; of all such members it has the greatest count, and comes first. */
  predicate IsBest(members: seq<Helper>, counts: Counts, i: nat) {
    && i < |members| && CountOf(counts, members[i].id) < 4
    && forall j :: 0 <= j < |members| && CountOf(counts, members[j].id) < 4 ==>
         members[j].quench < members[i].quench || (members[j].quench == members[i].quench && i <= j)
  }

  predicate NoneHasQuota(members: seq<Helper>, counts: Counts) {
    forall j :: 0 <= j < |members| ==> CountOf(counts, members[j].id) >= 4
  }

  /** One more member is the best if it has quota and a greater count than the best before it. */
  lemma BestOfOneMore(members: seq<Helper>, h: Helper, counts: Counts, k: nat)
    requires NoneHasQuota(members, counts) || IsBest(members, counts, k)
    ensures var n := |members|;
            var better := CountOf(counts, h.id) < 4 && (NoneHasQuota(members, counts) || h.quench > members[k].quench);
            if better then IsBest(members + [h], counts, n)
            else if NoneHasQuota(members, counts) then NoneHasQuota(members + [h], counts)
            else IsBest(members + [h], counts, k)
  {
    hide CountOf;
    var more := members + [h];
    assert more[|members|] == h && forall j :: 0 <= j < |members| ==> more[j] == members[j];
  }

  /** The guardian is the first member of the greatest count among those helping fewer than four cars; there is
      none only if nobody has quota left. */
  lemma {:induction false} GuardianIsBest(members: seq<Helper>, counts: Counts) returns (i: nat)
    ensures var g := Guardian(SortHelpers(members), counts);
            if g.None? then NoneHasQuota(members, counts) else IsBest(members, counts, i) && g.value == members[i]
  {
    hide Guardian, InsertHelper, Falling, CountOf;
    i := 0;
    if members == [] {
      NobodyIsListed(counts);
    } else {
      var n := |members| - 1;
      var rest, h := members[..n], members[n];
      var k := GuardianIsBest(rest, counts);
      SortHelpersSorts(rest);
      GuardianAfterInsert(h, SortHelpers(rest), counts);
      assert members == rest + [h];
      BestOfOneMore(rest, h, counts, k);
      i := if Guardian(SortHelpers(members), counts) == Guardian(SortHelpers(rest), counts) then k else n;
    }
  }

  lemma NobodyIsListed(counts: Counts)
    ensures Guardian(SortHelpers([]), counts) == None
  {
  }

  // ---------------------------------------------------------------- what holds for any replies

  function SentIn(log: seq<Event>, car: Bytes): nat { Sum(log, SentOf(car)) }
  function SentOf(car: Bytes): Event -> nat { (e: Event) => if e.Sent? && e.car == car then 1 else 0 }
  function Paid(e: Event): nat { if e.Refresh? && e.paid then 1 else 0 }
  function Free(e: Event): nat { if e.Refresh? && !e.paid then 1 else 0 }
  function Success(e: Event): nat { if e.Refresh? then 1 else 0 }
  function Failure(e: Event): nat { if e.RefreshFailed? then 1 else 0 }

  lemma SumAppend<T>(s: seq<T>, x: T, f: T -> nat)
    ensures Sum(s + [x], f) == Sum(s, f) + f(x)
  {
    assert (s + [x])[..|s|] == s;
  }

  predicate DistinctIds(cars: seq<Car>) { forall i, j :: 0 <= i < j < |cars| ==> cars[i].id != cars[j].id }

  /** Tickets left and refreshes paid make up the tickets at the start. */
  lemma {:induction false} LoopTickets(wednesday: bool, car: Bytes, guardian: Option<Bytes>, count: nat,
                                       rewards: seq<Reward>, d: Desk)
    ensures var after := RefreshLoop(wednesday, car, guardian, count, rewards, d);
            Sum(after.log, Paid) + after.tickets == Sum(d.log, Paid) + d.tickets
    decreases |d.replies|
  {
    hide ShouldSend, Sum;
    SumAppend(d.log, Sent(car, guardian), Paid);
    SumAppend(d.log, RefreshFailed(car), Paid);
    SumAppend(d.log, Refresh(car, count > 0), Paid);
    if (count == 0 || d.tickets > 0) && d.replies != [] && d.replies[0].Refreshed? {
      var r := d.replies[0];
      var next := d.(log := d.log + [Refresh(car, count > 0)], replies := d.replies[1..],
                     tickets := if count > 0 then d.tickets - 1 else d.tickets);
      SumAppend(next.log, Sent(car, guardian), Paid);
      LoopTickets(wednesday, car, guardian, NextCount(count, r), NextRewards(rewards, r), next);
    }
  }

  /** Paid refreshes and remaining tickets add up to the tickets at the start, so never more are paid. */
  lemma {:induction false} TicketsAreConserved(wednesday: bool, sorted: seq<Helper>, cars: seq<Car>, d: Desk)
    requires d.log == []
    ensures var after := AllCars(wednesday, sorted, cars, d);
            Sum(after.log, Paid) + after.tickets == d.tickets
  {
    hide ShouldSend, RefreshLoop, Guardian;
    if cars != [] {
      var n := |cars| - 1;
      TicketsAreConserved(wednesday, sorted, cars[..n], d);
      var before := AllCars(wednesday, sorted, cars[..n], d);
      var c := cars[n];
      LoopTickets(wednesday, c.id, GuardianId(c, sorted, before), c.refreshCount, c.rewards,
                  Guarded(c, sorted, before));
      SumAppend(before.log, Sent(c.id, GuardianId(c, sorted, before)), Paid);
    }
  }

  /** The two ways a car's turn ends. */
  function EndOf(car: Bytes): Event -> nat {
    (e: Event) => if (e.Sent? || e.RefreshFailed?) && e.car == car then 1 else 0
  }

  /** A finished loop ended its own car's turn once, and no other's. */
  lemma {:induction false} LoopEnds(wednesday: bool, car: Bytes, guardian: Option<Bytes>, count: nat,
                                    rewards: seq<Reward>, d: Desk, other: Bytes)
    requires d.done
    ensures var after := RefreshLoop(wednesday, car, guardian, count, rewards, d);
            Sum(after.log, EndOf(other)) == Sum(d.log, EndOf(other)) + if after.done && other == car then 1 else 0
    decreases |d.replies|
  {
    hide ShouldSend, Sum;
    SumAppend(d.log, Sent(car, guardian), EndOf(other));
    SumAppend(d.log, RefreshFailed(car), EndOf(other));
    SumAppend(d.log, Refresh(car, count > 0), EndOf(other));
    if (count == 0 || d.tickets > 0) && d.replies != [] && d.replies[0].Refreshed? {
      var r := d.replies[0];
      var next := d.(log := d.log + [Refresh(car, count > 0)], replies := d.replies[1..],
                     tickets := if count > 0 then d.tickets - 1 else d.tickets);
      SumAppend(next.log, Sent(car, guardian), EndOf(other));
      LoopEnds(wednesday, car, guardian, NextCount(count, r), NextRewards(rewards, r), next, other);
    }
  }

  predicate IsWaiting(cars: seq<Car>, id: Bytes) { exists i :: 0 <= i < |cars| && cars[i].id == id && Waiting(cars[i]) }

  /** Each waiting car's turn ends at most once, exactly once when the dispatch ends, and no other car is
      touched. */
  lemma {:induction false} TurnsEndOnce(wednesday: bool, sorted: seq<Helper>, cars: seq<Car>, d: Desk, id: Bytes)
    requires d.log == [] && d.done && DistinctIds(cars)
    ensures var after := AllCars(wednesday, sorted, cars, d);
            && Sum(after.log, EndOf(id)) <= (if IsWaiting(cars, id) then 1 else 0)
            && (after.done ==> Sum(after.log, EndOf(id)) == if IsWaiting(cars, id) then 1 else 0)
  {
    hide ShouldSend, RefreshLoop, Guardian, Sum;
    if cars == [] {
      assert Sum<Event>([], EndOf(id)) == 0 by { SumOfNothing(EndOf(id)); }
    } else {
      var n := |cars| - 1;
      TurnsEndOnce(wednesday, sorted, cars[..n], d, id);
      var before := AllCars(wednesday, sorted, cars[..n], d);
      var c := cars[n];
      WaitingAppend(cars, id);
      if Waiting(c) && before.done {
        LoopEnds(wednesday, c.id, GuardianId(c, sorted, before), c.refreshCount, c.rewards,
                 Guarded(c, sorted, before), id);
        SumAppend(before.log, Sent(c.id, GuardianId(c, sorted, before)), EndOf(id));
      }
    }
  }

  lemma SumOfNothing(f: Event -> nat)
    ensures Sum([], f) == 0
  {
  }

  lemma WaitingAppend(cars: seq<Car>, id: Bytes)
    requires cars != [] && DistinctIds(cars)
    ensures var n := |cars| - 1;
            && (IsWaiting(cars, id) <==> IsWaiting(cars[..n], id) || (cars[n].id == id && Waiting(cars[n])))
            && (cars[n].id == id ==> !IsWaiting(cars[..n], id))
            && DistinctIds(cars[..n])
  {
    var n := |cars| - 1;
    if i :| 0 <= i < n && cars[..n][i].id == id && Waiting(cars[..n][i]) {
      assert cars[i].id == id && Waiting(cars[i]);
    }
    if i :| 0 <= i < |cars| && cars[i].id == id && Waiting(cars[i]) {
      assert i < n ==> cars[..n][i] == cars[i];
    }
  }

  lemma {:induction false} SumMonotone(log: seq<Event>, f: Event -> nat, g: Event -> nat)
    requires forall e :: f(e) <= g(e)
    ensures Sum(log, f) <= Sum(log, g)
  {
    if log != [] {
      SumMonotone(log[..|log| - 1], f, g);
    }
  }

  /** Each waiting car is sent at most once, and no other car is sent. */
  lemma SentAtMostOnce(wednesday: bool, sorted: seq<Helper>, cars: seq<Car>, d: Desk, id: Bytes)
    requires d.log == [] && d.done && DistinctIds(cars)
    ensures SentIn(AllCars(wednesday, sorted, cars, d).log, id) <= if IsWaiting(cars, id) then 1 else 0
  {
    hide Sum, AllCars;
    TurnsEndOnce(wednesday, sorted, cars, d, id);
    SumMonotone(AllCars(wednesday, sorted, cars, d).log, SentOf(id), EndOf(id));
  }

  // ---------------------------------------------------------------- one turn, exactly

  /** The refresh count and the rewards a car shows after these replies: the last ones that were given. */
  function LastCount(count: nat, replies: seq<Reply>): nat
    decreases |replies|
  {
    if replies == [] then count
    else
      var r := replies[0];
      LastCount(if r.Refreshed? && r.refreshCount.Some? then r.refreshCount.value % 0x1_0000_0000 else count,
                replies[1..])
  }

  function LastRewards(rewards: seq<Reward>, replies: seq<Reply>): seq<Reward>
    decreases |replies|
  {
    if replies == [] then rewards
    else
      var r := replies[0];
      LastRewards(if r.Refreshed? && r.rewards.Some? then r.rewards.value else rewards, replies[1..])
  }

  /** How many of the refreshes answered by these replies cost a ticket: those of a car that showed a count. */
  function PaidAmong(count: nat, replies: seq<Reply>): nat
    decreases |replies|
  {
    if replies == [] then 0
    else (if count > 0 then 1 else 0) + PaidAmong(LastCount(count, replies[..1]), replies[1..])
  }

  /** After i successful refreshes the car is still not worth sending, may be refreshed, and the next request
      succeeds too. */
  predicate GoesOn(wednesday: bool, count: nat, rewards: seq<Reward>, tickets: nat, replies: seq<Reply>, i: nat) {
    && i < |replies| && replies[i].Refreshed?
    && !ShouldSend(wednesday, LastRewards(rewards, replies[..i]))
    && (LastCount(count, replies[..i]) == 0 || tickets > PaidAmong(count, replies[..i]))
  }

  /** The first n refreshes; one is free when the car shows the count zero. */
  function Refreshes(car: Bytes, count: nat, replies: seq<Reply>, n: nat): seq<Event>
    requires n <= |replies|
  {
    seq(n, i requires 0 <= i < n => Refresh(car, LastCount(count, replies[..i]) > 0))
  }

  /** A turn: n successful refreshes, and then the car is sent because it is worth it or has to be paid for with
      no ticket left, or the next request fails, or the replies have run out. */
  ghost predicate Turn(wednesday: bool, car: Bytes, guardian: Option<Bytes>, count: nat, rewards: seq<Reward>,
                       before: Desk, after: Desk, n: nat)
  {
    var rs := before.replies;
    && n <= |rs|
    && (forall i :: 0 <= i < n ==> GoesOn(wednesday, count, rewards, before.tickets, rs, i))
    && before.tickets >= PaidAmong(count, rs[..n]) && after.tickets == before.tickets - PaidAmong(count, rs[..n])
    && var log := before.log + Refreshes(car, count, rs, n);
       if || ShouldSend(wednesday, LastRewards(rewards, rs[..n]))
          || (LastCount(count, rs[..n]) > 0 && after.tickets == 0)
       then after.log == log + [Sent(car, guardian)] && after.replies == rs[n..] && after.done
       else if n == |rs| then after.log == log && after.replies == [] && !after.done
       else
         && rs[n].Failed?
         && after.log == log + [RefreshFailed(car)] && after.replies == rs[n + 1..] && after.done
  }

  /** A refresh before a turn makes one turn. */
  lemma TurnAfterRefresh(wednesday: bool, car: Bytes, guardian: Option<Bytes>, count: nat, rewards: seq<Reward>,
                         before: Desk, next: Desk, after: Desk, n: nat)
    requires GoesOn(wednesday, count, rewards, before.tickets, before.replies, 0)
    requires next.log == before.log + [Refresh(car, count > 0)] && next.replies == before.replies[1..]
    requires next.tickets == if count > 0 then before.tickets - 1 else before.tickets
    requires var r := before.replies[0];
             Turn(wednesday, car, guardian, NextCount(count, r), NextRewards(rewards, r), next, after, n)
    ensures Turn(wednesday, car, guardian, count, rewards, before, after, n + 1)
  {
    hide ShouldSend;
    var rs, rest := before.replies, next.replies;
    var r := rs[0];
    forall i | 0 <= i <= n
      ensures LastCount(count, rs[..i + 1]) == LastCount(NextCount(count, r), rest[..i])
      ensures LastRewards(rewards, rs[..i + 1]) == LastRewards(NextRewards(rewards, r), rest[..i])
      ensures PaidAmong(count, rs[..i + 1]) == (if count > 0 then 1 else 0) + PaidAmong(NextCount(count, r), rest[..i])
    {
      ShownAfter(count, rewards, rs, i);
    }
    forall i | 0 <= i < n + 1
      ensures GoesOn(wednesday, count, rewards, before.tickets, rs, i)
    {
      assert i > 0 ==> GoesOn(wednesday, NextCount(count, r), NextRewards(rewards, r), next.tickets, rest, i - 1);
    }
    assert Refreshes(car, count, rs, n + 1)
        == [Refresh(car, count > 0)] + Refreshes(car, NextCount(count, r), rest, n);
    assert before.log + Refreshes(car, count, rs, n + 1) == next.log + Refreshes(car, NextCount(count, r), rest, n);
  }

  lemma ShownAfter(count: nat, rewards: seq<Reward>, rs: seq<Reply>, i: nat)
    requires i < |rs| && rs[0].Refreshed?
    ensures var r, rest := rs[0], rs[1..];
            && LastCount(count, rs[..i + 1]) == LastCount(NextCount(count, r), rest[..i])
            && LastRewards(rewards, rs[..i + 1]) == LastRewards(NextRewards(rewards, r), rest[..i])
            && PaidAmong(count, rs[..i + 1])
               == (if count > 0 then 1 else 0) + PaidAmong(NextCount(count, r), rest[..i])
  {
    assert rs[..i + 1][1..] == rs[1..][..i];
    assert rs[..i + 1][..1] == [rs[0]];
    assert [rs[0]][1..] == [];
    assert LastCount(count, [rs[0]]) == NextCount(count, rs[0]);
  }

  lemma {:induction false} LoopIsExact(wednesday: bool, car: Bytes, guardian: Option<Bytes>, count: nat,
                                       rewards: seq<Reward>, d: Desk) returns (n: nat)
    requires d.done && !ShouldSend(wednesday, rewards)
    ensures Turn(wednesday, car, guardian, count, rewards, d,
                 RefreshLoop(wednesday, car, guardian, count, rewards, d), n)
    decreases |d.replies|
  {
    hide ShouldSend, Turn;
    if (count == 0 || d.tickets > 0) && d.replies != [] && d.replies[0].Refreshed? {
      var r := d.replies[0];
      var next := d.(log := d.log + [Refresh(car, count > 0)], replies := d.replies[1..],
                     tickets := if count > 0 then d.tickets - 1 else d.tickets);
      assert d.replies[..0] == [];
      if ShouldSend(wednesday, NextRewards(rewards, r)) {
        n := 0;
        SentAtOnce(wednesday, car, guardian, NextCount(count, r), NextRewards(rewards, r), next);
      } else {
        n := LoopIsExact(wednesday, car, guardian, NextCount(count, r), NextRewards(rewards, r), next);
      }
      TurnAfterRefresh(wednesday, car, guardian, count, rewards, d, next,
                       RefreshLoop(wednesday, car, guardian, count, rewards, d), n);
      n := n + 1;
    } else {
      n := 0;
      EndsAtOnce(wednesday, car, guardian, count, rewards, d);
    }
  }

  lemma SentAtOnce(wednesday: bool, car: Bytes, guardian: Option<Bytes>, count: nat, rewards: seq<Reward>, d: Desk)
    requires d.done && ShouldSend(wednesday, rewards)
    ensures Turn(wednesday, car, guardian, count, rewards, d, d.(log := d.log + [Sent(car, guardian)]), 0)
  {
    hide ShouldSend;
    assert d.replies[..0] == [];
    assert d.log + Refreshes(car, count, d.replies, 0) == d.log;
  }

  lemma EndsAtOnce(wednesday: bool, car: Bytes, guardian: Option<Bytes>, count: nat, rewards: seq<Reward>, d: Desk)
    requires d.done && !ShouldSend(wednesday, rewards)
    requires (count > 0 && d.tickets == 0) || d.replies == [] || d.replies[0].Failed?
    ensures Turn(wednesday, car, guardian, count, rewards, d,
                 RefreshLoop(wednesday, car, guardian, count, rewards, d), 0)
  {
    hide ShouldSend;
    assert d.replies[..0] == [];
    assert d.log + Refreshes(car, count, d.replies, 0) == d.log;
  }

  /** The guardian of a car: none below colour five or when nobody has quota left, and otherwise the first member
      of the greatest count among those with quota, who then helps one car more. */
  ghost predicate Allotted(members: seq<Helper>, c: Car, before: Counts, after: Counts, guardian: Option<Bytes>) {
    if c.color < 5 || NoneHasQuota(members, before) then guardian == None && after == before
    else
      exists i: nat ::
        && IsBest(members, before, i) && guardian == Some(members[i].id)
        && after == before[members[i].id := CountOf(before, members[i].id) + 1]
  }

  /** A car that was sent already, or comes after the replies ran out, is passed over; any other is allotted its
      guardian and takes its turn under it. */
  lemma TurnIsExact(wednesday: bool, members: seq<Helper>, cars: seq<Car>, d: Desk, k: nat)
    returns (guardian: Option<Bytes>, n: nat)
    requires k < |cars|
    ensures AllCars(wednesday, SortHelpers(members), [], d) == d
    ensures var sorted, c := SortHelpers(members), cars[k];
            var before := AllCars(wednesday, sorted, cars[..k], d);
            var after := AllCars(wednesday, sorted, cars[..k + 1], d);
            if c.sendAt != 0 || !before.done then after == before
            else
              && Allotted(members, c, before.counts, after.counts, guardian)
              && Turn(wednesday, c.id, guardian, c.refreshCount, c.rewards, before, after, n)
  {
    hide SortHelpers, ShouldSend, RefreshLoop, Guardian, Turn, Allotted;
    var sorted, c := SortHelpers(members), cars[k];
    var before := AllCars(wednesday, sorted, cars[..k], d);
    assert cars[..k + 1][..k] == cars[..k];
    guardian, n := GuardianId(c, sorted, before), 0;
    var guarded := Guarded(c, sorted, before);
    assert Allotted(members, c, before.counts, guarded.counts, guardian) by {
      GuardianIsAllotted(members, c, before);
    }
    if c.sendAt == 0 && before.done {
      if ShouldSend(wednesday, c.rewards) {
        SentAtOnce(wednesday, c.id, guardian, c.refreshCount, c.rewards, guarded);
      } else {
        n := LoopIsExact(wednesday, c.id, guardian, c.refreshCount, c.rewards, guarded);
      }
      TurnIgnoresCounts(wednesday, c.id, guardian, c.refreshCount, c.rewards, before, guarded,
                        AllCars(wednesday, sorted, cars[..k + 1], d), n);
    }
  }

  lemma GuardianIsAllotted(members: seq<Helper>, c: Car, before: Desk)
    ensures var sorted := SortHelpers(members);
            Allotted(members, c, before.counts, Guarded(c, sorted, before).counts, GuardianId(c, sorted, before))
  {
    hide SortHelpers, Guardian;
    var i := GuardianIsBest(members, before.counts);
  }

  lemma TurnIgnoresCounts(wednesday: bool, car: Bytes, guardian: Option<Bytes>, count: nat, rewards: seq<Reward>,
                          before: Desk, other: Desk, after: Desk, n: nat)
    requires before == other.(counts := before.counts)
    requires Turn(wednesday, car, guardian, count, rewards, other, after, n)
    ensures Turn(wednesday, car, guardian, count, rewards, before, after, n)
  {
    hide ShouldSend, LastRewards, LastCount, PaidAmong, GoesOn, Refreshes;
  }

  // ---------------------------------------------------------------- guardians over a whole dispatch

  function GuardedBy(id: Bytes): Event -> nat {
    (e: Event) => if e.Sent? && e.guardian == Some(id) then 1 else 0
  }

  /** What a turn logs: refreshes of its car, and at most one sending, under its guardian. */
  lemma TurnLogs(wednesday: bool, car: Bytes, guardian: Option<Bytes>, count: nat, rewards: seq<Reward>,
                 before: Desk, after: Desk, n: nat, id: Bytes)
    requires Turn(wednesday, car, guardian, count, rewards, before, after, n)
    ensures before.log <= after.log
    ensures forall i :: |before.log| <= i < |after.log| && after.log[i].Sent? ==> after.log[i] == Sent(car, guardian)
    ensures Sum(after.log, GuardedBy(id)) <= Sum(before.log, GuardedBy(id)) + if guardian == Some(id) then 1 else 0
  {
    hide ShouldSend, LastRewards, LastCount, PaidAmong, GoesOn, Sum;
    var quiet := Refreshes(car, count, before.replies, n);
    SumOfQuiet(before.log, quiet, GuardedBy(id));
    SumAppend(before.log + quiet, Sent(car, guardian), GuardedBy(id));
    SumAppend(before.log + quiet, RefreshFailed(car), GuardedBy(id));
  }

  lemma {:induction false} SumOfQuiet(log: seq<Event>, quiet: seq<Event>, f: Event -> nat)
    requires forall i :: 0 <= i < |quiet| ==> f(quiet[i]) == 0
    ensures Sum(log + quiet, f) == Sum(log, f)
  {
    if quiet == [] {
      assert log + quiet == log;
    } else {
      var n := |quiet| - 1;
      SumOfQuiet(log, quiet[..n], f);
      assert (log + quiet)[..|log| + n] == log + quiet[..n];
    }
  }

  /** A member guards no more cars than its count rises by, and its count rises to four at most: a member that
      starts with four or more guards none. */
  lemma {:induction false} GuardianQuota(wednesday: bool, members: seq<Helper>, cars: seq<Car>, d: Desk, id: Bytes)
    requires d.log == []
    ensures var after := AllCars(wednesday, SortHelpers(members), cars, d);
            var start, end := CountOf(d.counts, id), CountOf(after.counts, id);
            && Sum(after.log, GuardedBy(id)) <= end - start
            && start <= end && (if start >= 4 then end == start else end <= 4)
  {
    hide SortHelpers, Turn, Sum, RefreshLoop, ShouldSend, Guardian;
    if cars == [] {
      SumOfNothing(GuardedBy(id));
    } else {
      var k := |cars| - 1;
      GuardianQuota(wednesday, members, cars[..k], d, id);
      var g, n := TurnIsExact(wednesday, members, cars, d, k);
      assert cars[..k + 1] == cars;
      var before, after := AllCars(wednesday, SortHelpers(members), cars[..k], d),
                           AllCars(wednesday, SortHelpers(members), cars, d);
      if cars[k].sendAt == 0 && before.done {
        TurnLogs(wednesday, cars[k].id, g, cars[k].refreshCount, cars[k].rewards, before, after, n, id);
      }
    }
  }

  /** The car is waiting, of colour five at least, and the guardian is a member. */
  ghost predicate Deserves(members: seq<Helper>, cars: seq<Car>, car: Bytes, guardian: Bytes) {
    && (exists k :: 0 <= k < |cars| && cars[k].id == car && cars[k].sendAt == 0 && cars[k].color >= 5)
    && (exists j :: 0 <= j < |members| && members[j].id == guardian)
  }

  /** Only waiting cars of colour five and more are sent under a guardian. */
  lemma {:induction false} GuardiansAreDeserved(wednesday: bool, members: seq<Helper>, cars: seq<Car>, d: Desk)
    requires d.log == []
    ensures var log := AllCars(wednesday, SortHelpers(members), cars, d).log;
            forall i :: 0 <= i < |log| && log[i].Sent? && log[i].guardian.Some? ==>
              Deserves(members, cars, log[i].car, log[i].guardian.value)
  {
    hide SortHelpers, Turn, RefreshLoop, ShouldSend, Guardian, Deserves;
    if cars != [] {
      var k := |cars| - 1;
      var c := cars[k];
      GuardiansAreDeserved(wednesday, members, cars[..k], d);
      var g, n := TurnIsExact(wednesday, members, cars, d, k);
      assert cars[..k + 1] == cars;
      var before, after := AllCars(wednesday, SortHelpers(members), cars[..k], d),
                           AllCars(wednesday, SortHelpers(members), cars, d);
      forall i | 0 <= i < |before.log| && before.log[i].Sent? && before.log[i].guardian.Some?
        ensures Deserves(members, cars, before.log[i].car, before.log[i].guardian.value)
      {
        StillDeserves(members, cars, before.log[i].car, before.log[i].guardian.value);
      }
      if c.sendAt == 0 && before.done {
        TurnLogs(wednesday, c.id, g, c.refreshCount, c.rewards, before, after, n, []);
        if g.Some? {
          AllottedDeserves(members, cars, before.counts, after.counts, g);
        }
      }
    }
  }

  lemma StillDeserves(members: seq<Helper>, cars: seq<Car>, car: Bytes, guardian: Bytes)
    requires cars != [] && Deserves(members, cars[..|cars| - 1], car, guardian)
    ensures Deserves(members, cars, car, guardian)
  {
    var rest := cars[..|cars| - 1];
    var k :| 0 <= k < |rest| && rest[k].id == car && rest[k].sendAt == 0 && rest[k].color >= 5;
    assert cars[k] == rest[k];
  }

  lemma AllottedDeserves(members: seq<Helper>, cars: seq<Car>, before: Counts, after: Counts, guardian: Option<Bytes>)
    requires cars != [] && cars[|cars| - 1].sendAt == 0 && guardian.Some?
    requires Allotted(members, cars[|cars| - 1], before, after, guardian)
    ensures Deserves(members, cars, cars[|cars| - 1].id, guardian.value)
  {
    var c := cars[|cars| - 1];
    var i: nat :| IsBest(members, before, i) && guardian == Some(members[i].id);
    assert members[i].id == guardian.value;
  }

  // ---------------------------------------------------------------- when the refreshing ends

  /** A success after which the car is still not worth sending: its rewards are not, or are left out. */
  predicate LeavesWaiting(wednesday: bool, r: Reply) {
    r.Refreshed? && (r.rewards.Some? ==> !ShouldSend(wednesday, r.rewards.value))
  }

  /** It carries a refresh count that is not zero as a u32. */
  predicate Carries(r: Reply) { r.Refreshed? && r.refreshCount.Some? && AsU32(r.refreshCount.value) >= 1 }

  predicate Counting(wednesday: bool, replies: seq<Reply>) {
    forall i :: 0 <= i < |replies| && LeavesWaiting(wednesday, replies[i]) ==> Carries(replies[i])
  }

  /** If every reply that leaves a car waiting carries a count, each car has at most one free refresh and one
      failure, and a loop that has not ended used all replies. */
  lemma {:induction false} LoopBounds(wednesday: bool, car: Bytes, guardian: Option<Bytes>, count: nat,
                                      rewards: seq<Reward>, d: Desk)
    requires Counting(wednesday, d.replies) && d.done && !ShouldSend(wednesday, rewards)
    ensures var after := RefreshLoop(wednesday, car, guardian, count, rewards, d);
            && Counting(wednesday, after.replies) && (!after.done ==> after.replies == [])
            && Sum(after.log, Free) <= Sum(d.log, Free) + (if count == 0 then 1 else 0)
            && Sum(after.log, Failure) <= Sum(d.log, Failure) + 1
            && |after.replies| + Sum(after.log, Success) + Sum(after.log, Failure)
               == |d.replies| + Sum(d.log, Success) + Sum(d.log, Failure)
    decreases |d.replies|
  {
    hide ShouldSend, Sum, AsU32;
    AppendAll(d.log, Sent(car, guardian));
    AppendAll(d.log, RefreshFailed(car));
    AppendAll(d.log, Refresh(car, count > 0));
    if (count == 0 || d.tickets > 0) && d.replies != [] && d.replies[0].Refreshed? {
      var r := d.replies[0];
      var next := d.(log := d.log + [Refresh(car, count > 0)], replies := d.replies[1..],
                     tickets := if count > 0 then d.tickets - 1 else d.tickets);
      AppendAll(next.log, Sent(car, guardian));
      if !ShouldSend(wednesday, NextRewards(rewards, r)) {
        assert LeavesWaiting(wednesday, r) && NextCount(count, r) >= 1;
        LoopBounds(wednesday, car, guardian, NextCount(count, r), NextRewards(rewards, r), next);
      }
    }
  }

  lemma AppendAll(log: seq<Event>, e: Event)
    ensures Sum(log + [e], Free) == Sum(log, Free) + Free(e)
    ensures Sum(log + [e], Failure) == Sum(log, Failure) + Failure(e)
    ensures Sum(log + [e], Success) == Sum(log, Success) + Success(e)
  {
    SumAppend(log, e, Free);
    SumAppend(log, e, Failure);
    SumAppend(log, e, Success);
  }

  lemma {:induction false} CarsBounds(wednesday: bool, sorted: seq<Helper>, cars: seq<Car>, d: Desk)
    requires d.log == [] && d.done && Counting(wednesday, d.replies)
    ensures var after := AllCars(wednesday, sorted, cars, d);
            && Counting(wednesday, after.replies) && (!after.done ==> after.replies == [])
            && Sum(after.log, Free) <= WaitingCars(cars)
            && Sum(after.log, Failure) <= WaitingCars(cars)
            && |after.replies| + Sum(after.log, Success) + Sum(after.log, Failure) == |d.replies|
  {
    hide ShouldSend, RefreshLoop, Guardian, Sum, Counting;
    if cars == [] {
      SumOfNothing(Free);
      SumOfNothing(Failure);
      SumOfNothing(Success);
    } else {
      var n := |cars| - 1;
      CarsBounds(wednesday, sorted, cars[..n], d);
      var before := AllCars(wednesday, sorted, cars[..n], d);
      var c := cars[n];
      if Waiting(c) && before.done {
        if !ShouldSend(wednesday, c.rewards) {
          LoopBounds(wednesday, c.id, GuardianId(c, sorted, before), c.refreshCount, c.rewards,
                     Guarded(c, sorted, before));
        }
        AppendAll(before.log, Sent(c.id, GuardianId(c, sorted, before)));
      }
    }
  }

  lemma {:induction false} SuccessIsPaidOrFree(log: seq<Event>)
    ensures Sum(log, Success) == Sum(log, Paid) + Sum(log, Free)
  {
    if log != [] {
      SuccessIsPaidOrFree(log[..|log| - 1]);
    }
  }

  /** If every reply that leaves a car waiting carries a count of at least one, there are at most as many
      successful refreshes as waiting cars and tickets, and the dispatch ends within that many plus one
      failure per car. */
  lemma RefreshesAreBounded(wednesday: bool, sorted: seq<Helper>, cars: seq<Car>, d: Desk)
    requires d.log == [] && d.done && Counting(wednesday, d.replies)
    ensures var after := AllCars(wednesday, sorted, cars, d);
            && Sum(after.log, Success) <= WaitingCars(cars) + d.tickets
            && (|d.replies| > 2 * WaitingCars(cars) + d.tickets ==> after.done)
  {
    hide AllCars, Sum, WaitingCars, Counting;
    CarsBounds(wednesday, sorted, cars, d);
    TicketsAreConserved(wednesday, sorted, cars, d);
    SuccessIsPaidOrFree(AllCars(wednesday, sorted, cars, d).log);
  }

  /** One reply that leaves a car waiting and carries no count, given over and over to a car that has one
      refresh free: the car is refreshed for free every time and never sent. */
  lemma {:induction false} FreeRefreshesCanGoOn(wednesday: bool, car: Bytes, guardian: Option<Bytes>,
                                                rewards: seq<Reward>, r: Reply, d: Desk)
    requires LeavesWaiting(wednesday, r) && !Carries(r) && !ShouldSend(wednesday, rewards)
    requires forall i :: 0 <= i < |d.replies| ==> d.replies[i] == r
    ensures var after := RefreshLoop(wednesday, car, guardian, 0, rewards, d);
            && !after.done && after.tickets == d.tickets
            && Sum(after.log, Free) == Sum(d.log, Free) + |d.replies|
            && Sum(after.log, Success) == Sum(d.log, Success) + |d.replies|
            && SentIn(after.log, car) == SentIn(d.log, car)
    decreases |d.replies|
  {
    hide Sum, ShouldSend, AsU32;
    if d.replies != [] {
      var next := d.(log := d.log + [Refresh(car, false)], replies := d.replies[1..]);
      AppendAll(d.log, Refresh(car, false));
      SumAppend(d.log, Refresh(car, false), SentOf(car));
      FreeRefreshesCanGoOn(wednesday, car, guardian, NextRewards(rewards, r), r, next);
    }
  }

  predicate AllIn(replies: seq<Reply>, may: iset<Reply>) { forall i :: 0 <= i < |replies| ==> replies[i] in may }

  lemma NothingToSend(wednesday: bool)
    ensures !ShouldSend(wednesday, [])
  {
  }

  /** One waiting car and two such replies are too many refreshes already. */
  lemma TwoFreeRefreshes(wednesday: bool, r: Reply)
    requires LeavesWaiting(wednesday, r) && !Carries(r)
    ensures var cars, d := [Car([], 0, 0, 0, [])], Desk(map[], 0, [], [r, r], true);
            && WaitingCars(cars) == 1
            && Sum(AllCars(wednesday, [], cars, d).log, Success) == 2
            && !IsBounded(wednesday, [], cars, d)
  {
    hide RefreshLoop, ShouldSend, Sum;
    var car, d := Car([], 0, 0, 0, []), Desk(map[], 0, [], [r, r], true);
    NothingToSend(wednesday);
    assert [car][..0] == [];
    assert WaitingCars([car]) == WaitingCars([]) + 1;
    FreeRefreshesCanGoOn(wednesday, [], None, [], r, d);
    SumOfNothing(Success);
  }

  /** The refreshes of a dispatch stay within waiting cars plus tickets, and it ends. */
  predicate IsBounded(wednesday: bool, sorted: seq<Helper>, cars: seq<Car>, d: Desk) {
    var after := AllCars(wednesday, sorted, cars, d);
    && Sum(after.log, Success) <= WaitingCars(cars) + d.tickets
    && (|d.replies| > 2 * WaitingCars(cars) + d.tickets ==> after.done)
  }

  /** For the replies a server may give: every dispatch is bounded, if and only if each of them that leaves a
      car waiting carries a count of at least one. */
  lemma EndsIff(wednesday: bool, may: iset<Reply>)
    ensures (forall r :: r in may && LeavesWaiting(wednesday, r) ==> Carries(r))
            <==> forall sorted: seq<Helper>, cars: seq<Car>, d: Desk ::
                   d.log == [] && d.done && AllIn(d.replies, may) ==> IsBounded(wednesday, sorted, cars, d)
  {
    hide AllCars, Sum, WaitingCars, LeavesWaiting, Carries;
    if forall r :: r in may && LeavesWaiting(wednesday, r) ==> Carries(r) {
      forall sorted: seq<Helper>, cars: seq<Car>, d: Desk | d.log == [] && d.done && AllIn(d.replies, may)
        ensures IsBounded(wednesday, sorted, cars, d)
      {
        assert Counting(wednesday, d.replies);
        RefreshesAreBounded(wednesday, sorted, cars, d);
      }
    } else {
      var r :| r in may && LeavesWaiting(wednesday, r) && !Carries(r);
      TwoFreeRefreshes(wednesday, r);
      assert AllIn([r, r], may);
    }
  }
}
