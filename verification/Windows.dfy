// The maintenance windows of src/config.rs and how src/scheduler.rs checks a moment against them.
module Windows {
  import opened Bytes

  // ---------------------------------------------------------------- weekdays and times as text

  datatype Weekday = Mon | Tue | Wed | Thu | Fri | Sat | Sun

  const WEEK := [Mon, Tue, Wed, Thu, Fri, Sat, Sun]

  function FromMonday(w: Weekday): (n: nat)
    ensures n < 7 && WEEK[n] == w
  {
    match w
    case Mon => 0
    case Tue => 1
    case Wed => 2
    case Thu => 3
    case Fri => 4
    case Sat => 5
    case Sun => 6
  }

  function Lower(s: string): string {
    if s == [] then [] else [if 'A' <= s[0] <= 'Z' then (s[0] as int + 32) as char else s[0]] + Lower(s[1..])
  }

  function ParseWeekday(raw: string): Option<Weekday> {
    var s := Lower(raw);
    if s in {"mon", "monday"} then Some(Mon)
    else if s in {"tue", "tues", "tuesday"} then Some(Tue)
    else if s in {"wed", "wednesday"} then Some(Wed)
    else if s in {"thu", "thur", "thurs", "thursday"} then Some(Thu)
    else if s in {"fri", "friday"} then Some(Fri)
    else if s in {"sat", "saturday"} then Some(Sat)
    else if s in {"sun", "sunday"} then Some(Sun)
    else None
  }

  function ShortName(w: Weekday): string {
    match w
    case Mon => "Mon"
    case Tue => "Tue"
    case Wed => "Wed"
    case Thu => "Thu"
    case Fri => "Fri"
    case Sat => "Sat"
    case Sun => "Sun"
  }

  /** Splitting at every colon. */
  function Split(s: string): (parts: seq<string>)
    ensures parts != []
  {
    if s == [] then [""]
    else
      var rest := Split(s[1..]);
      if s[0] == ':' then [""] + rest else [[s[0]] + rest[0]] + rest[1..]
  }

  predicate IsDigit(c: char) { '0' <= c <= '9' }

  predicate AllDigits(s: string) { forall i :: 0 <= i < |s| ==> IsDigit(s[i]) }

  function DigitValue(c: char): (n: nat)
    requires IsDigit(c)
    ensures n < 10
  {
    c as int - '0' as int
  }

  function Number(s: string): nat
    requires AllDigits(s)
  {
    if s == [] then 0 else 10 * Number(s[..|s| - 1]) + DigitValue(s[|s| - 1])
  }

  /** str::parse::<u32>: an optional plus sign, then at least one digit, within 32 bits. */
  function ParseU32(s: string): Option<nat> {
    var digits := if s != [] && s[0] == '+' then s[1..] else s;
    if digits == [] || !AllDigits(digits) then None
    else if Number(digits) >= TWO_32 then None
    else Some(Number(digits))
  }

  datatype Time = Time(hour: nat, minute: nat)

  function ParseTime(raw: string): Option<Time> {
    var parts := Split(raw);
    if |parts| != 2 then None
    else
      var h, m := ParseU32(parts[0]), ParseU32(parts[1]);
      if h.None? || m.None? || h.value > 23 || m.value > 59 then None else Some(Time(h.value, m.value))
  }

  function Decimal(n: nat): string {
    if n < 10 then [(n + '0' as int) as char] else Decimal(n / 10) + [(n % 10 + '0' as int) as char]
  }

  function TwoDigits(n: nat): string { if n < 10 then "0" + Decimal(n) else Decimal(n) }

  function ShowMinutes(total: nat): string { TwoDigits(total / 60) + ":" + TwoDigits(total % 60) }

  // ---------------------------------------------------------------- windows

  datatype Window = Window(weekday: string, startTime: string, endTime: string)

  datatype Parsed = Parsed(weekday: Weekday, start: Time, end: Time)

  function DefaultWindows(): seq<Window> {
    [Window("Fri", "05:00", "07:00"), Window("Sat", "19:15", "21:15"), Window("Sun", "19:15", "20:45")]
  }

  function ParseWindow(w: Window): Option<Parsed> {
    var day, start, end := ParseWeekday(w.weekday), ParseTime(w.startTime), ParseTime(w.endTime);
    if day.None? || start.None? || end.None? then None else Some(Parsed(day.value, start.value, end.value))
  }

  function ParseWindows(ws: seq<Window>): seq<Parsed> {
    if ws == [] then []
    else
      var p := ParseWindow(ws[|ws| - 1]);
      ParseWindows(ws[..|ws| - 1]) + if p.Some? then [p.value] else []
  }

  /** A moment as the scheduler looks at it. */
  datatype Now = Now(weekday: Weekday, hour: nat, minute: nat)

  predicate TimeReached(now: Now, t: Time) { now.hour > t.hour || (now.hour == t.hour && now.minute >= t.minute) }
  predicate TimeBefore(now: Now, t: Time) { now.hour < t.hour || (now.hour == t.hour && now.minute < t.minute) }

  predicate Matches(now: Now, p: Parsed) {
    now.weekday == p.weekday && TimeReached(now, p.start) && TimeBefore(now, p.end)
  }

  // ---------------------------------------------------------------- minutes of a day

  datatype Interval = Interval(start: nat, end: nat)
  datatype Slot = Slot(day: Weekday, span: Interval)

  function Minutes(t: Time): nat { t.hour * 60 + t.minute }

  function SlotOf(w: Window): Option<Slot> {
    var p := ParseWindow(w);
    if p.None? || Minutes(p.value.start) >= Minutes(p.value.end) then None
    else Some(Slot(p.value.weekday, Interval(Minutes(p.value.start), Minutes(p.value.end))))
  }

  /** The valid windows, in order. */
  function Slots(ws: seq<Window>): seq<Slot> {
    if ws == [] then []
    else
      var s := SlotOf(ws[|ws| - 1]);
      Slots(ws[..|ws| - 1]) + if s.Some? then [s.value] else []
  }

  function SpansOn(slots: seq<Slot>, day: Weekday): seq<Interval> {
    if slots == [] then []
    else
      var last := slots[|slots| - 1];
      SpansOn(slots[..|slots| - 1], day) + if last.day == day then [last.span] else []
  }

  function InsertByStart(x: Interval, sorted: seq<Interval>): seq<Interval> {
    if sorted == [] then [x]
    else if x.start < sorted[0].start then [x] + sorted
    else [sorted[0]] + InsertByStart(x, sorted[1..])
  }

  /** The stable sort by start. */
  function SortByStart(spans: seq<Interval>): seq<Interval> {
    if spans == [] then [] else InsertByStart(spans[|spans| - 1], SortByStart(spans[..|spans| - 1]))
  }

  function MergeStep(merged: seq<Interval>, x: Interval): seq<Interval> {
    if merged == [] then [x]
    else
      var n := |merged| - 1;
      if x.start <= merged[n].end then merged[..n] + [Interval(merged[n].start, Max(merged[n].end, x.end))]
      else merged + [x]
  }

  function Merged(sorted: seq<Interval>): seq<Interval> {
    if sorted == [] then [] else MergeStep(Merged(sorted[..|sorted| - 1]), sorted[|sorted| - 1])
  }

  function OnDay(day: Weekday, spans: seq<Interval>): seq<Slot> {
    if spans == [] then [] else OnDay(day, spans[..|spans| - 1]) + [Slot(day, spans[|spans| - 1])]
  }

  function MergedOn(slots: seq<Slot>, day: Weekday): seq<Slot> { OnDay(day, Merged(SortByStart(SpansOn(slots, day)))) }

  /** The merged slots of the first n days of the week. */
  function MergedDays(slots: seq<Slot>, n: nat): seq<Slot>
    requires n <= 7
  {
    if n == 0 then [] else MergedDays(slots, n - 1) + MergedOn(slots, WEEK[n - 1])
  }

  function Canonical(slots: seq<Slot>): seq<Slot> { MergedDays(slots, 7) }

  function Show(s: Slot): Window { Window(ShortName(s.day), ShowMinutes(s.span.start), ShowMinutes(s.span.end)) }

  function ShowAll(slots: seq<Slot>): seq<Window> {
    if slots == [] then [] else ShowAll(slots[..|slots| - 1]) + [Show(slots[|slots| - 1])]
  }

  function Normalized(ws: seq<Window>): seq<Window> {
    var c := Canonical(Slots(ws));
    if c == [] then DefaultWindows() else ShowAll(c)
  }

  // ---------------------------------------------------------------- the methods

  class BatchConfig {
    var maintenanceWindows: seq<Window>

    constructor (windows: seq<Window>)
      ensures maintenanceWindows == windows
    {
      maintenanceWindows := windows;
    }

    /** parse_maintenance_windows */
    method ParseMaintenanceWindows() returns (out: seq<Parsed>)
      ensures out == ParseWindows(maintenanceWindows)
    {
      out := [];
      var ws := maintenanceWindows;
      for i := 0 to |ws|
        invariant out == ParseWindows(ws[..i])
      {
        assert ws[..i + 1][..i] == ws[..i];
        var p := ParseWindow(ws[i]);
        if p.Some? {
          out := out + [p.value];
        }
      }
      assert ws[..|ws|] == ws;
    }

    /** maintenance_hit: the first window that contains the moment. */
    method MaintenanceHit(now: Now) returns (hit: Option<Parsed>)
      ensures hit.Some? ==> hit.value in ParseWindows(maintenanceWindows) && Matches(now, hit.value)
      ensures hit.None? ==> forall p :: p in ParseWindows(maintenanceWindows) ==> !Matches(now, p)
      ensures var ws := ParseWindows(maintenanceWindows);
              hit.Some? ==> exists i :: 0 <= i < |ws| && ws[i] == hit.value
                                        && forall j :: 0 <= j < i ==> !Matches(now, ws[j])
    {
      var windows := ParseMaintenanceWindows();
      for i := 0 to |windows|
        invariant forall j :: 0 <= j < i ==> !Matches(now, windows[j])
      {
        if Matches(now, windows[i]) {
          return Some(windows[i]);
        }
      }
      return None;
    }

    /** normalize_maintenance_windows */
    method NormalizeMaintenanceWindows()
      modifies this
      ensures maintenanceWindows == Normalized(old(maintenanceWindows))
    {
      hide Slots, SpansOn, OnDay, Merged, SortByStart, ShowAll, DefaultWindows;
      var ws := maintenanceWindows;
      if ws == [] {
        NoSlots();
        NothingOnAnyDay([], 7);
        maintenanceWindows := DefaultWindows();
        return;
      }
      var grouped := GroupByDay(ws);
      ShowAllEmpty([]);
      var normalized: seq<Window> := [];
      for n := 0 to 7
        invariant normalized == ShowAll(MergedDays(Slots(ws), n))
      {
        var day := WEEK[n];
        if day in grouped {
          var merged := MergeSpans(SortByStart(grouped[day]));
          var shown := ShowDay(day, merged);
          normalized := normalized + shown;
        } else {
          NothingOn(Slots(ws), day);
        }
        ShowAllAppend(MergedDays(Slots(ws), n), MergedOn(Slots(ws), day));
      }
      ShowAllEmpty(Canonical(Slots(ws)));
      maintenanceWindows := if normalized == [] then DefaultWindows() else normalized;
    }
  }

  method GroupByDay(ws: seq<Window>) returns (grouped: map<Weekday, seq<Interval>>)
    ensures forall d :: if d in grouped then grouped[d] == SpansOn(Slots(ws), d) else SpansOn(Slots(ws), d) == []
  {
    hide ParseWindow;
    grouped := map[];
    for i := 0 to |ws|
      invariant forall d :: if d in grouped then grouped[d] == SpansOn(Slots(ws[..i]), d)
                            else SpansOn(Slots(ws[..i]), d) == []
    {
      assert ws[..i + 1][..i] == ws[..i];
      ghost var before := Slots(ws[..i]);
      assert before + [] == before;
      var p := ParseWindow(ws[i]);
      if p.Some? {
        var start, end := Minutes(p.value.start), Minutes(p.value.end);
        if start < end {
          var day, span := p.value.weekday, Interval(start, end);
          forall d {
            MoreSpans(before, Slot(day, span), d);
          }
          grouped := grouped[day := (if day in grouped then grouped[day] else []) + [span]];
        }
      }
    }
    assert ws[..|ws|] == ws;
  }

  method MergeSpans(sorted: seq<Interval>) returns (merged: seq<Interval>)
    ensures merged == Merged(sorted)
  {
    merged := [];
    for i := 0 to |sorted|
      invariant merged == Merged(sorted[..i])
    {
      assert sorted[..i + 1][..i] == sorted[..i];
      var x := sorted[i];
      if merged != [] {
        var n := |merged| - 1;
        if x.start <= merged[n].end {
          if x.end > merged[n].end {
            merged := merged[n := Interval(merged[n].start, x.end)];
          } else {
            assert merged[..n] + [merged[n]] == merged;
          }
        } else {
          merged := merged + [x];
        }
      } else {
        merged := merged + [x];
      }
    }
    assert sorted[..|sorted|] == sorted;
  }

  method ShowDay(day: Weekday, spans: seq<Interval>) returns (shown: seq<Window>)
    ensures shown == ShowAll(OnDay(day, spans))
  {
    hide Show;
    shown := [];
    for i := 0 to |spans|
      invariant shown == ShowAll(OnDay(day, spans[..i]))
    {
      assert spans[..i + 1][..i] == spans[..i];
      var before := OnDay(day, spans[..i]);
      assert (before + [Slot(day, spans[i])])[..|before|] == before;
      shown := shown + [Show(Slot(day, spans[i]))];
    }
    assert spans[..|spans|] == spans;
  }

  lemma MoreSpans(slots: seq<Slot>, s: Slot, day: Weekday)
    ensures SpansOn(slots + [s], day) == SpansOn(slots, day) + if s.day == day then [s.span] else []
  {
    assert (slots + [s])[..|slots|] == slots;
  }

  lemma NothingOn(slots: seq<Slot>, day: Weekday)
    requires SpansOn(slots, day) == []
    ensures MergedOn(slots, day) == []
  {
  }

  lemma NoSlots()
    ensures Slots([]) == []
  {
  }

  lemma {:induction false} NothingOnAnyDay(slots: seq<Slot>, n: nat)
    requires slots == [] && n <= 7
    ensures MergedDays(slots, n) == []
  {
    if n > 0 {
      NothingOnAnyDay(slots, n - 1);
    }
  }

  lemma {:induction false} ShowAllAppend(a: seq<Slot>, b: seq<Slot>)
    ensures ShowAll(a + b) == ShowAll(a) + ShowAll(b)
  {
    hide Show;
    if b == [] {
      assert a + b == a;
    } else {
      var n := |b| - 1;
      ShowAllAppend(a, b[..n]);
      assert (a + b)[..|a + b| - 1] == a + b[..n];
    }
  }

  lemma ShowAllEmpty(slots: seq<Slot>)
    ensures ShowAll(slots) == [] <==> slots == []
  {
  }

  // ---------------------------------------------------------------- meaning: which minutes are covered

  predicate Within(t: nat, x: Interval) { x.start <= t < x.end }

  predicate CoveredBy(spans: seq<Interval>, t: nat) { exists i :: 0 <= i < |spans| && Within(t, spans[i]) }

  predicate Covered(slots: seq<Slot>, day: Weekday, t: nat) {
    exists i :: 0 <= i < |slots| && slots[i].day == day && Within(t, slots[i].span)
  }

  /** The scheduler's check on a configuration. */
  predicate IsHit(ws: seq<Window>, now: Now) { exists p :: p in ParseWindows(ws) && Matches(now, p) }

  predicate RealTime(now: Now) { now.hour < 24 && now.minute < 60 }

  lemma CoveredAppend(slots: seq<Slot>, more: seq<Slot>, day: Weekday, t: nat)
    ensures Covered(slots + more, day, t) <==> Covered(slots, day, t) || Covered(more, day, t)
  {
    if Covered(slots, day, t) {
      var i :| 0 <= i < |slots| && slots[i].day == day && Within(t, slots[i].span);
      assert (slots + more)[i] == slots[i];
    }
    if Covered(more, day, t) {
      var i :| 0 <= i < |more| && more[i].day == day && Within(t, more[i].span);
      assert (slots + more)[|slots| + i] == more[i];
    }
  }

  lemma CoveredOne(s: Slot, day: Weekday, t: nat)
    ensures Covered([s], day, t) <==> s.day == day && Within(t, s.span)
  {
    assert [s][0] == s;
  }

  lemma CoveredByAppend(spans: seq<Interval>, x: Interval, t: nat)
    ensures CoveredBy(spans + [x], t) <==> CoveredBy(spans, t) || Within(t, x)
  {
    if CoveredBy(spans, t) {
      var i :| 0 <= i < |spans| && Within(t, spans[i]);
      assert (spans + [x])[i] == spans[i];
    }
    assert (spans + [x])[|spans|] == x;
  }

  lemma CoveredByPrepend(x: Interval, spans: seq<Interval>, t: nat)
    ensures CoveredBy([x] + spans, t) <==> Within(t, x) || CoveredBy(spans, t)
  {
    assert ([x] + spans)[0] == x;
    if CoveredBy(spans, t) {
      var i :| 0 <= i < |spans| && Within(t, spans[i]);
      assert ([x] + spans)[i + 1] == spans[i];
    }
  }

  /** Comparing hours and minutes is comparing minutes of the day. */
  lemma MatchesIsWithin(now: Now, p: Parsed)
    requires RealTime(now) && p.start.minute < 60 && p.end.minute < 60
    ensures Matches(now, p)
            <==> now.weekday == p.weekday
                 && Within(now.hour * 60 + now.minute, Interval(Minutes(p.start), Minutes(p.end)))
  {
  }

  lemma ParsedTimesAreReal(raw: string)
    requires ParseTime(raw).Some?
    ensures ParseTime(raw).value.hour < 24 && ParseTime(raw).value.minute < 60
  {
    hide Split, ParseU32;
  }

  /** The check per minute asks whether a valid slot covers the minute. */
  lemma {:induction false} HitIffCovered(ws: seq<Window>, now: Now)
    requires RealTime(now)
    ensures IsHit(ws, now) <==> Covered(Slots(ws), now.weekday, now.hour * 60 + now.minute)
  {
    hide ParseTime, ParseWeekday, Matches, Covered;
    var t := now.hour * 60 + now.minute;
    if ws == [] {
      assert !Covered([], now.weekday, t) by { NothingCovered(now.weekday, t); }
    } else {
      var n := |ws| - 1;
      HitIffCovered(ws[..n], now);
      var p, s := ParseWindow(ws[n]), SlotOf(ws[n]);
      if p.Some? {
        ParsedTimesAreReal(ws[n].startTime);
        ParsedTimesAreReal(ws[n].endTime);
        MatchesIsWithin(now, p.value);
        HitAppend(ParseWindows(ws[..n]), p.value, now);
      } else {
        assert ParseWindows(ws) == ParseWindows(ws[..n]);
      }
      if s.Some? {
        CoveredAppend(Slots(ws[..n]), [s.value], now.weekday, t);
        CoveredOne(s.value, now.weekday, t);
      } else {
        assert Slots(ws) == Slots(ws[..n]);
      }
    }
  }

  /** The window names the moment's weekday and two times, and the moment is from the first until before the
      second. */
  predicate HitBy(w: Window, now: Now) {
    var start, end := ParseTime(w.startTime), ParseTime(w.endTime);
    && ParseWeekday(w.weekday) == Some(now.weekday) && start.Some? && end.Some?
    && start.value.hour * 60 + start.value.minute <= now.hour * 60 + now.minute
    && now.hour * 60 + now.minute < end.value.hour * 60 + end.value.minute
  }

  /** A moment is a hit if and only if one of the windows is hit. */
  lemma {:induction false} HitIff(ws: seq<Window>, now: Now)
    requires RealTime(now)
    ensures IsHit(ws, now) <==> exists i :: 0 <= i < |ws| && HitBy(ws[i], now)
  {
    hide ParseTime, ParseWeekday, Matches;
    if ws != [] {
      var n := |ws| - 1;
      HitIff(ws[..n], now);
      var p := ParseWindow(ws[n]);
      if p.Some? {
        ParsedTimesAreReal(ws[n].startTime);
        ParsedTimesAreReal(ws[n].endTime);
        MatchesIsWithin(now, p.value);
        HitAppend(ParseWindows(ws[..n]), p.value, now);
      } else {
        assert ParseWindows(ws) == ParseWindows(ws[..n]);
      }
      assert (exists i :: 0 <= i < n && HitBy(ws[..n][i], now)) <==> (exists i :: 0 <= i < n && HitBy(ws[i], now)) by {
        assert forall i :: 0 <= i < n ==> ws[..n][i] == ws[i];
      }
    }
  }

  lemma NothingCovered(day: Weekday, t: nat)
    ensures !Covered([], day, t)
  {
  }

  lemma HitAppend(ps: seq<Parsed>, p: Parsed, now: Now)
    ensures (exists q :: q in ps + [p] && Matches(now, q))
            <==> (exists q :: q in ps && Matches(now, q)) || Matches(now, p)
  {
    hide Matches;
    if q :| q in ps && Matches(now, q) {
      assert q in ps + [p];
    }
    assert p in ps + [p];
  }

  lemma {:induction false} CoveredIffSpansOn(slots: seq<Slot>, day: Weekday, t: nat)
    ensures Covered(slots, day, t) <==> CoveredBy(SpansOn(slots, day), t)
  {
    hide Within, Covered, CoveredBy;
    if slots == [] {
      NothingCovered(day, t);
      assert !CoveredBy([], t) by { NoSpans(t); }
    } else {
      var n := |slots| - 1;
      CoveredIffSpansOn(slots[..n], day, t);
      assert slots == slots[..n] + [slots[n]];
      CoveredAppend(slots[..n], [slots[n]], day, t);
      CoveredOne(slots[n], day, t);
      CoveredByAppend(SpansOn(slots[..n], day), slots[n].span, t);
      assert SpansOn(slots[..n], day) + [] == SpansOn(slots[..n], day);
    }
  }

  lemma NoSpans(t: nat)
    ensures !CoveredBy([], t)
  {
  }

  // ---------------------------------------------------------------- sorting and merging

  predicate Proper(spans: seq<Interval>) { forall i :: 0 <= i < |spans| ==> spans[i].start < spans[i].end }

  predicate Ordered(spans: seq<Interval>) { forall i, j :: 0 <= i < j < |spans| ==> spans[i].start <= spans[j].start }

  /** Sorted with strict gaps. */
  predicate Gapped(spans: seq<Interval>) {
    && Proper(spans)
    && forall i, j :: 0 <= i < j < |spans| ==> spans[i].end < spans[j].start
  }

  lemma {:induction false} InsertSorts(x: Interval, sorted: seq<Interval>, t: nat)
    requires Ordered(sorted) && Proper(sorted) && x.start < x.end
    ensures Ordered(InsertByStart(x, sorted)) && Proper(InsertByStart(x, sorted))
    ensures CoveredBy(InsertByStart(x, sorted), t) <==> CoveredBy(sorted, t) || Within(t, x)
    ensures forall y :: y in InsertByStart(x, sorted) ==> y == x || y in sorted
  {
    hide Within, CoveredBy;
    if sorted == [] {
      CoveredByPrepend(x, [], t);
      assert [x] + [] == [x];
    } else if x.start < sorted[0].start {
      CoveredByPrepend(x, sorted, t);
    } else {
      InsertSorts(x, sorted[1..], t);
      assert sorted == [sorted[0]] + sorted[1..];
      CoveredByPrepend(sorted[0], sorted[1..], t);
      CoveredByPrepend(sorted[0], InsertByStart(x, sorted[1..]), t);
      OrderedPrepend(sorted[0], InsertByStart(x, sorted[1..]));
    }
  }

  lemma OrderedPrepend(x: Interval, spans: seq<Interval>)
    requires Ordered(spans) && forall y :: y in spans ==> x.start <= y.start
    ensures Ordered([x] + spans)
  {
  }

  lemma {:induction false} SortSorts(spans: seq<Interval>, t: nat)
    requires Proper(spans)
    ensures Ordered(SortByStart(spans)) && Proper(SortByStart(spans))
    ensures CoveredBy(SortByStart(spans), t) <==> CoveredBy(spans, t)
  {
    hide Within, CoveredBy;
    if spans != [] {
      var n := |spans| - 1;
      SortSorts(spans[..n], t);
      InsertSorts(spans[n], SortByStart(spans[..n]), t);
      CoveredByAppend(spans[..n], spans[n], t);
      assert spans == spans[..n] + [spans[n]];
    }
  }

  lemma UnionOfTouching(a: Interval, x: Interval, t: nat)
    requires a.start <= x.start <= a.end
    ensures Within(t, Interval(a.start, Max(a.end, x.end))) <==> Within(t, a) || Within(t, x)
  {
  }

  lemma MergeStepGapped(merged: seq<Interval>, x: Interval)
    requires Gapped(merged) && x.start < x.end && (merged != [] ==> merged[|merged| - 1].start <= x.start)
    ensures Gapped(MergeStep(merged, x))
    ensures MergeStep(merged, x) != [] && MergeStep(merged, x)[|MergeStep(merged, x)| - 1].start <= x.start
  {
  }

  /** Merging a span that starts no earlier than the last one covers exactly the two together. */
  lemma MergeStepCovers(merged: seq<Interval>, x: Interval, t: nat)
    requires Gapped(merged) && x.start < x.end && (merged != [] ==> merged[|merged| - 1].start <= x.start)
    ensures Gapped(MergeStep(merged, x))
    ensures CoveredBy(MergeStep(merged, x), t) <==> CoveredBy(merged, t) || Within(t, x)
    ensures MergeStep(merged, x) != [] && MergeStep(merged, x)[|MergeStep(merged, x)| - 1].start <= x.start
  {
    hide CoveredBy, Within, Gapped;
    CoveredByAppend(merged, x, t);
    MergeStepGapped(merged, x);
    if merged != [] {
      var n := |merged| - 1;
      assert merged == merged[..n] + [merged[n]];
      CoveredByAppend(merged[..n], merged[n], t);
      if x.start <= merged[n].end {
        UnionOfTouching(merged[n], x, t);
      }
      CoveredByAppend(merged[..n], Interval(merged[n].start, Max(merged[n].end, x.end)), t);
    } else {
      assert merged + [x] == [x];
      NoSpans(t);
    }
  }

  lemma {:induction false} MergedCovers(sorted: seq<Interval>, t: nat)
    requires Ordered(sorted) && Proper(sorted)
    ensures Gapped(Merged(sorted)) && (CoveredBy(Merged(sorted), t) <==> CoveredBy(sorted, t))
    ensures Merged(sorted) == [] <==> sorted == []
    ensures sorted != [] ==> Merged(sorted)[|Merged(sorted)| - 1].start <= sorted[|sorted| - 1].start
  {
    hide Within, CoveredBy, MergeStep;
    if sorted != [] {
      var n := |sorted| - 1;
      MergedCovers(sorted[..n], t);
      MergeStepCovers(Merged(sorted[..n]), sorted[n], t);
      CoveredByAppend(sorted[..n], sorted[n], t);
      assert sorted == sorted[..n] + [sorted[n]];
    }
  }

  /** Spans already sorted with strict gaps stay as they are. */
  lemma {:induction false} GappedIsFixed(spans: seq<Interval>)
    requires Gapped(spans)
    ensures SortByStart(spans) == spans && Merged(spans) == spans
  {
    hide MergeStep, InsertByStart;
    if spans != [] {
      var n := |spans| - 1;
      GappedIsFixed(spans[..n]);
      InsertLast(spans[n], spans[..n]);
      MergeLast(spans[..n], spans[n]);
      assert spans == spans[..n] + [spans[n]];
    }
  }

  lemma MergeLast(merged: seq<Interval>, x: Interval)
    requires merged != [] ==> merged[|merged| - 1].end < x.start
    ensures MergeStep(merged, x) == merged + [x]
  {
  }

  lemma {:induction false} InsertLast(x: Interval, sorted: seq<Interval>)
    requires forall i :: 0 <= i < |sorted| ==> sorted[i].start <= x.start
    ensures InsertByStart(x, sorted) == sorted + [x]
  {
    if sorted != [] {
      InsertLast(x, sorted[1..]);
    }
  }

  // ---------------------------------------------------------------- the whole week

  predicate ProperSlots(slots: seq<Slot>) {
    forall i :: 0 <= i < |slots| ==> slots[i].span.start < slots[i].span.end < 1440
  }

  /** Sorted by day and minute, with strict gaps within a day. */
  predicate Sparse(slots: seq<Slot>) {
    && ProperSlots(slots)
    && forall i, j :: 0 <= i < j < |slots| ==>
         FromMonday(slots[i].day) < FromMonday(slots[j].day)
         || (slots[i].day == slots[j].day && slots[i].span.end < slots[j].span.start)
  }

  lemma {:induction false} SlotsAreProper(ws: seq<Window>)
    ensures ProperSlots(Slots(ws))
  {
    hide ParseTime, ParseWeekday;
    if ws != [] {
      var w := ws[|ws| - 1];
      SlotsAreProper(ws[..|ws| - 1]);
      if SlotOf(w).Some? {
        ParsedTimesAreReal(w.startTime);
        ParsedTimesAreReal(w.endTime);
      }
    }
  }

  lemma {:induction false} SpansAreProper(slots: seq<Slot>, day: Weekday)
    requires ProperSlots(slots)
    ensures Proper(SpansOn(slots, day))
    ensures forall i :: 0 <= i < |SpansOn(slots, day)| ==> SpansOn(slots, day)[i].end < 1440
  {
    if slots != [] {
      SpansAreProper(slots[..|slots| - 1], day);
    }
  }

  lemma {:induction false} InsertStaysBelow(x: Interval, sorted: seq<Interval>, top: nat)
    requires x.end < top && forall i :: 0 <= i < |sorted| ==> sorted[i].end < top
    ensures forall i :: 0 <= i < |InsertByStart(x, sorted)| ==> InsertByStart(x, sorted)[i].end < top
  {
    if sorted != [] && x.start >= sorted[0].start {
      InsertStaysBelow(x, sorted[1..], top);
    }
  }

  lemma {:induction false} SortStaysBelow(spans: seq<Interval>, top: nat)
    requires forall i :: 0 <= i < |spans| ==> spans[i].end < top
    ensures forall i :: 0 <= i < |SortByStart(spans)| ==> SortByStart(spans)[i].end < top
  {
    if spans != [] {
      SortStaysBelow(spans[..|spans| - 1], top);
      InsertStaysBelow(spans[|spans| - 1], SortByStart(spans[..|spans| - 1]), top);
    }
  }

  lemma {:induction false} MergedStaysBelow(spans: seq<Interval>, top: nat)
    requires forall i :: 0 <= i < |spans| ==> spans[i].end < top
    ensures forall i :: 0 <= i < |Merged(spans)| ==> Merged(spans)[i].end < top
  {
    if spans != [] {
      MergedStaysBelow(spans[..|spans| - 1], top);
    }
  }

  lemma {:induction false} OnDayIs(day: Weekday, spans: seq<Interval>)
    ensures |OnDay(day, spans)| == |spans|
    ensures forall i :: 0 <= i < |spans| ==> OnDay(day, spans)[i] == Slot(day, spans[i])
  {
    if spans != [] {
      OnDayIs(day, spans[..|spans| - 1]);
    }
  }

  /** The merged slots of one day: in gaps, and covering what the day's slots cover. */
  lemma MergedOnIs(slots: seq<Slot>, day: Weekday, t: nat)
    requires ProperSlots(slots)
    ensures var m := MergedOn(slots, day);
            && Sparse(m) && (forall i :: 0 <= i < |m| ==> m[i].day == day)
            && (Covered(m, day, t) <==> Covered(slots, day, t))
            && (m == [] <==> SpansOn(slots, day) == [])
  {
    hide CoveredBy, Covered, Within, Merged, SortByStart, OnDay, SpansOn;
    var spans := SpansOn(slots, day);
    SpansAreProper(slots, day);
    SortSorts(spans, t);
    SortStaysBelow(spans, 1440);
    MergedCovers(SortByStart(spans), t);
    MergedStaysBelow(SortByStart(spans), 1440);
    var merged := Merged(SortByStart(spans));
    OnDayIs(day, merged);
    CoveredIffSpansOn(slots, day, t);
    CoveredOnDay(day, merged, t);
    SortLength(spans);
  }

  lemma {:induction false} SortLength(spans: seq<Interval>)
    ensures |SortByStart(spans)| == |spans|
  {
    if spans != [] {
      SortLength(spans[..|spans| - 1]);
      InsertLength(spans[|spans| - 1], SortByStart(spans[..|spans| - 1]));
    }
  }

  lemma {:induction false} InsertLength(x: Interval, sorted: seq<Interval>)
    ensures |InsertByStart(x, sorted)| == |sorted| + 1
  {
    if sorted != [] && x.start >= sorted[0].start {
      InsertLength(x, sorted[1..]);
    }
  }

  lemma CoveredOnDay(day: Weekday, spans: seq<Interval>, t: nat)
    ensures Covered(OnDay(day, spans), day, t) <==> CoveredBy(spans, t)
  {
    hide Within, OnDay;
    OnDayIs(day, spans);
    if CoveredBy(spans, t) {
      var i :| 0 <= i < |spans| && Within(t, spans[i]);
      assert OnDay(day, spans)[i].day == day && Within(t, OnDay(day, spans)[i].span);
    }
  }

  lemma OtherDays(slots: seq<Slot>, day: Weekday, t: nat)
    requires forall i :: 0 <= i < |slots| ==> slots[i].day != day
    ensures !Covered(slots, day, t)
  {
  }

  lemma {:induction false} MergedDaysIs(slots: seq<Slot>, n: nat, day: Weekday, t: nat)
    requires ProperSlots(slots) && n <= 7
    ensures var m := MergedDays(slots, n);
            && Sparse(m) && (forall i :: 0 <= i < |m| ==> FromMonday(m[i].day) < n)
            && (Covered(m, day, t) <==> FromMonday(day) < n && Covered(slots, day, t))
  {
    hide Covered, MergedOn, ProperSlots;
    if n == 0 {
      NothingCovered(day, t);
      NoneIsSparse();
    } else {
      var last := WEEK[n - 1];
      MergedDaysIs(slots, n - 1, day, t);
      MergedOnIs(slots, last, t);
      var before, more := MergedDays(slots, n - 1), MergedOn(slots, last);
      SparseAppend(before, more, n - 1);
      CoveredAppend(before, more, day, t);
      if day != last {
        OtherDays(more, day, t);
      }
    }
  }

  lemma NoneIsSparse()
    ensures Sparse([])
  {
  }

  lemma SparseAppend(before: seq<Slot>, more: seq<Slot>, n: nat)
    requires Sparse(before) && Sparse(more)
    requires forall i :: 0 <= i < |before| ==> FromMonday(before[i].day) < n
    requires forall i :: 0 <= i < |more| ==> FromMonday(more[i].day) == n
    ensures Sparse(before + more)
  {
  }

  // ---------------------------------------------------------------- showing and parsing

  lemma WeekdayRoundTrip(w: Weekday)
    ensures ParseWeekday(ShortName(w)) == Some(w)
  {
    var s := ShortName(w);
    LowerThree(s);
  }

  lemma LowerThree(s: string)
    requires |s| == 3 && 'A' <= s[0] <= 'Z' && 'a' <= s[1] <= 'z' && 'a' <= s[2] <= 'z'
    ensures Lower(s) == [(s[0] as int + 32) as char, s[1], s[2]]
  {
    assert s[1..][1..] == [s[2]];
    assert Lower([s[2]]) == [s[2]];
    assert s[1..][0] == s[1];
    assert Lower(s[1..]) == [s[1]] + Lower(s[1..][1..]);
  }

  function Digit(n: nat): char
    requires n < 10
  {
    (n + '0' as int) as char
  }

  lemma TwoDigitsIs(n: nat)
    requires n < 60
    ensures TwoDigits(n) == [Digit(n / 10), Digit(n % 10)]
  {
    assert n >= 10 ==> Decimal(n / 10) == [Digit(n / 10)];
  }

  lemma ParseTwoDigits(a: nat, b: nat)
    requires a < 10 && b < 10
    ensures ParseU32([Digit(a), Digit(b)]) == Some(10 * a + b)
  {
    var s := [Digit(a), Digit(b)];
    assert s[..1] == [Digit(a)] && s[..1][..0] == [];
    assert DigitValue(Digit(a)) == a && DigitValue(Digit(b)) == b;
    assert Number(s[..1]) == a;
    assert Number(s) == 10 * a + b;
    assert s[0] != '+';
  }

  lemma SplitCons(c: char, rest: string)
    ensures Split([c] + rest)
            == if c == ':' then [""] + Split(rest) else [[c] + Split(rest)[0]] + Split(rest)[1..]
  {
    assert ([c] + rest)[1..] == rest;
  }

  lemma SplitFive(a: char, b: char, c: char, d: char)
    requires IsDigit(a) && IsDigit(b) && IsDigit(c) && IsDigit(d)
    ensures Split([a, b] + ":" + [c, d]) == [[a, b], [c, d]]
  {
    hide Split;
    SplitNothing();
    SplitCons(d, []);
    assert [d] + [] == [d];
    SplitCons(c, [d]);
    assert [c] + [d] == [c, d];
    SplitCons(':', [c, d]);
    SplitCons(b, ":" + [c, d]);
    assert [b] + [] == [b];
    SplitCons(a, [b] + (":" + [c, d]));
    assert [a, b] + ":" + [c, d] == [a] + ([b] + (":" + [c, d]));
    assert [a] + [b] == [a, b];
  }

  lemma SplitNothing()
    ensures Split([]) == [""]
  {
  }

  lemma TimeRoundTrip(t: nat)
    requires t < 1440
    ensures ParseTime(ShowMinutes(t)) == Some(Time(t / 60, t % 60))
    ensures |ShowMinutes(t)| == 5
  {
    hide TwoDigits, ParseU32, Split;
    var h, m := t / 60, t % 60;
    TwoDigitsIs(h);
    TwoDigitsIs(m);
    SplitFive(Digit(h / 10), Digit(h % 10), Digit(m / 10), Digit(m % 10));
    ParseTwoDigits(h / 10, h % 10);
    ParseTwoDigits(m / 10, m % 10);
  }

  lemma MinutesBack(t: nat)
    ensures Minutes(Time(t / 60, t % 60)) == t
  {
  }

  lemma SlotRoundTrip(s: Slot)
    requires s.span.start < s.span.end < 1440
    ensures SlotOf(Show(s)) == Some(s)
  {
    hide ParseTime, ShowMinutes, ParseWeekday, ShortName, Minutes;
    MinutesBack(s.span.start);
    MinutesBack(s.span.end);
    WeekdayRoundTrip(s.day);
    TimeRoundTrip(s.span.start);
    TimeRoundTrip(s.span.end);
  }

  /** What normalising writes is read back as the slots it stands for. */
  lemma {:induction false} SlotsRoundTrip(slots: seq<Slot>)
    requires ProperSlots(slots)
    ensures Slots(ShowAll(slots)) == slots
  {
    hide SlotOf, Show;
    if slots != [] {
      var n := |slots| - 1;
      SlotsRoundTrip(slots[..n]);
      SlotRoundTrip(slots[n]);
      assert ShowAll(slots)[..|ShowAll(slots)| - 1] == ShowAll(slots[..n]);
      assert slots == slots[..n] + [slots[n]];
    }
  }

  // ---------------------------------------------------------------- normalising twice

  lemma {:induction false} SpanSource(slots: seq<Slot>, day: Weekday, x: Interval) returns (i: nat)
    requires x in SpansOn(slots, day)
    ensures i < |slots| && slots[i] == Slot(day, x)
  {
    var n := |slots| - 1;
    if slots[n] == Slot(day, x) {
      i := n;
    } else {
      i := SpanSource(slots[..n], day, x);
    }
  }

  lemma {:induction false} SpansOfSparse(slots: seq<Slot>, day: Weekday)
    requires Sparse(slots)
    ensures Gapped(SpansOn(slots, day))
  {
    hide FromMonday;
    if slots != [] {
      var n := |slots| - 1;
      SpansOfSparse(slots[..n], day);
      if slots[n].day == day {
        forall x | x in SpansOn(slots[..n], day) ensures x.end < slots[n].span.start {
          var i := SpanSource(slots[..n], day, x);
          assert slots[i] == Slot(day, x);
        }
        GappedAppend(SpansOn(slots[..n], day), slots[n].span);
      }
    }
  }

  lemma GappedAppend(spans: seq<Interval>, x: Interval)
    requires Gapped(spans) && x.start < x.end && forall y :: y in spans ==> y.end < x.start
    ensures Gapped(spans + [x])
  {
  }

  /** The merged days of sparse slots are the slots themselves. */
  lemma {:induction false} SparseIsFixed(slots: seq<Slot>, n: nat)
    requires Sparse(slots) && n <= 7
    requires forall i :: 0 <= i < |slots| ==> FromMonday(slots[i].day) < n
    ensures MergedDays(slots, n) == slots
    decreases n
  {
    hide FromMonday, MergedOn, Sparse, SpansOn, OnDay, Cut;
    if n == 0 {
      assert slots != [] ==> FromMonday(slots[0].day) < 0;
    } else {
      var day := WEEK[n - 1];
      MergedOnSparse(slots, day);
      var k := Cut(slots, n - 1);
      CutSparse(slots, n);
      var early, late := slots[..k], slots[k..];
      assert slots == early + late;
      SparseIsFixed(early, n - 1);
      SameEarlyDays(early, late, n - 1);
      LateSpans(early, late, day);
    }
  }

  lemma CutSparse(slots: seq<Slot>, n: nat)
    requires Sparse(slots) && 0 < n <= 7
    requires forall i :: 0 <= i < |slots| ==> FromMonday(slots[i].day) < n
    ensures var k, day := Cut(slots, n - 1), WEEK[n - 1];
            && Sparse(slots[..k])
            && (forall i :: 0 <= i < k ==> FromMonday(slots[..k][i].day) < n - 1 && slots[..k][i].day != day)
            && (forall i :: 0 <= i < |slots| - k ==> slots[k..][i].day == day && FromMonday(slots[k..][i].day) >= n - 1)
  {
    hide FromMonday, Cut;
    CutIs(slots, n - 1);
    DayNumber(n - 1);
  }

  lemma DayNumber(n: nat)
    requires n < 7
    ensures FromMonday(WEEK[n]) == n
  {
  }

  /** How many slots lie before day number n. */
  function Cut(slots: seq<Slot>, n: nat): (k: nat)
    ensures k <= |slots|
  {
    if slots == [] then 0
    else if FromMonday(slots[|slots| - 1].day) < n then |slots|
    else Cut(slots[..|slots| - 1], n)
  }

  lemma {:induction false} CutIs(slots: seq<Slot>, n: nat)
    requires Sparse(slots)
    ensures forall i :: 0 <= i < Cut(slots, n) ==> FromMonday(slots[i].day) < n
    ensures forall i :: Cut(slots, n) <= i < |slots| ==> FromMonday(slots[i].day) >= n
  {
    hide FromMonday;
    if slots != [] && FromMonday(slots[|slots| - 1].day) >= n {
      CutIs(slots[..|slots| - 1], n);
    }
  }

  lemma {:induction false} SpansOnAppend(a: seq<Slot>, b: seq<Slot>, day: Weekday)
    ensures SpansOn(a + b, day) == SpansOn(a, day) + SpansOn(b, day)
  {
    if b == [] {
      assert a + b == a;
    } else {
      var n := |b| - 1;
      SpansOnAppend(a, b[..n], day);
      assert (a + b)[..|a + b| - 1] == a + b[..n];
    }
  }

  lemma {:induction false} SpansOnOther(slots: seq<Slot>, day: Weekday)
    requires forall i :: 0 <= i < |slots| ==> slots[i].day != day
    ensures SpansOn(slots, day) == []
  {
    if slots != [] {
      SpansOnOther(slots[..|slots| - 1], day);
    }
  }

  lemma {:induction false} SpansOnSame(slots: seq<Slot>, day: Weekday)
    requires forall i :: 0 <= i < |slots| ==> slots[i].day == day
    ensures OnDay(day, SpansOn(slots, day)) == slots
  {
    if slots != [] {
      var n := |slots| - 1;
      SpansOnSame(slots[..n], day);
      var spans := SpansOn(slots[..n], day);
      assert (spans + [slots[n].span])[..|spans|] == spans;
      assert slots == slots[..n] + [slots[n]];
    }
  }

  lemma {:induction false} SameEarlyDays(early: seq<Slot>, late: seq<Slot>, n: nat)
    requires n <= 7 && forall i :: 0 <= i < |late| ==> FromMonday(late[i].day) >= n
    ensures MergedDays(early + late, n) == MergedDays(early, n)
  {
    hide Merged, SortByStart, FromMonday;
    if n > 0 {
      SameEarlyDays(early, late, n - 1);
      var day := WEEK[n - 1];
      DayNumber(n - 1);
      SpansOnAppend(early, late, day);
      SpansOnOther(late, day);
      assert SpansOn(early, day) + [] == SpansOn(early, day);
    }
  }

  lemma MergedOnSparse(slots: seq<Slot>, day: Weekday)
    requires Sparse(slots)
    ensures MergedOn(slots, day) == OnDay(day, SpansOn(slots, day))
  {
    SpansOfSparse(slots, day);
    GappedIsFixed(SpansOn(slots, day));
  }

  lemma LateSpans(early: seq<Slot>, late: seq<Slot>, day: Weekday)
    requires forall i :: 0 <= i < |early| ==> early[i].day != day
    requires forall i :: 0 <= i < |late| ==> late[i].day == day
    ensures OnDay(day, SpansOn(early + late, day)) == late
  {
    SpansOnAppend(early, late, day);
    SpansOnOther(early, day);
    SpansOnSame(late, day);
    assert [] + SpansOn(late, day) == SpansOn(late, day);
  }

  // ---------------------------------------------------------------- what normalising promises

  lemma CanonicalIs(slots: seq<Slot>, day: Weekday, t: nat)
    requires ProperSlots(slots)
    ensures Sparse(Canonical(slots)) && (Covered(Canonical(slots), day, t) <==> Covered(slots, day, t))
    ensures Canonical(slots) == [] <==> slots == []
  {
    hide Covered, Sparse, Within;
    MergedDaysIs(slots, 7, day, t);
    if slots != [] {
      var first := slots[0];
      MergedDaysIs(slots, 7, first.day, first.span.start);
      FirstIsCovered(slots);
      NothingCovered(first.day, first.span.start);
    } else {
      NothingOnAnyDay(slots, 7);
    }
  }

  lemma FirstIsCovered(slots: seq<Slot>)
    requires ProperSlots(slots) && slots != []
    ensures Covered(slots, slots[0].day, slots[0].span.start)
  {
  }

  lemma DefaultSlots()
    ensures Slots(DefaultWindows())
            == [Slot(Fri, Interval(300, 420)), Slot(Sat, Interval(1155, 1275)), Slot(Sun, Interval(1155, 1245))]
    ensures ShowAll(Slots(DefaultWindows())) == DefaultWindows()
  {
    hide Slots, ShowAll, ShowMinutes;
    var fri, sat := Slot(Fri, Interval(300, 420)), Slot(Sat, Interval(1155, 1275));
    var sun := Slot(Sun, Interval(1155, 1245));
    DefaultTimes();
    ShowThree(fri, sat, sun);
    assert ShowAll([fri, sat, sun]) == DefaultWindows();
    SlotsRoundTrip([fri, sat, sun]);
  }

  lemma ShowThree(a: Slot, b: Slot, c: Slot)
    ensures ShowAll([a, b, c]) == [Show(a), Show(b), Show(c)]
  {
    hide Show;
    ShowAllAppend([a], [b]);
    ShowAllAppend([a] + [b], [c]);
    assert [a] + [b] + [c] == [a, b, c];
  }

  lemma DefaultTimes()
    ensures ShowMinutes(300) == "05:00" && ShowMinutes(420) == "07:00"
    ensures ShowMinutes(1155) == "19:15" && ShowMinutes(1275) == "21:15" && ShowMinutes(1245) == "20:45"
  {
    hide TwoDigits;
    TwoDigitsIs(5);
    TwoDigitsIs(0);
    TwoDigitsIs(7);
    TwoDigitsIs(19);
    TwoDigitsIs(15);
    TwoDigitsIs(21);
    TwoDigitsIs(20);
    TwoDigitsIs(45);
  }

  /** With at least one valid window, a moment is a hit after normalising exactly when it was before; with
      none, the defaults are used. */
  lemma NormalizingPreservesHits(ws: seq<Window>, now: Now)
    requires RealTime(now)
    ensures Slots(ws) != [] ==> (IsHit(Normalized(ws), now) <==> IsHit(ws, now))
    ensures Slots(ws) == [] ==> Normalized(ws) == DefaultWindows() && !IsHit(ws, now)
  {
    hide IsHit, Covered, Sparse, Canonical, ShowAll, DefaultWindows;
    var t := now.hour * 60 + now.minute;
    SlotsAreProper(ws);
    CanonicalIs(Slots(ws), now.weekday, t);
    HitIffCovered(ws, now);
    if Slots(ws) == [] {
      NothingCovered(now.weekday, t);
    } else {
      assert ProperSlots(Canonical(Slots(ws))) by { SparseIsProper(Canonical(Slots(ws))); }
      SlotsRoundTrip(Canonical(Slots(ws)));
      HitIffCovered(Normalized(ws), now);
    }
  }

  lemma SparseIsProper(slots: seq<Slot>)
    requires Sparse(slots)
    ensures ProperSlots(slots)
  {
  }

  /** The result reads back as windows sorted by day and minute with strict gaps, none of them invalid. */
  lemma NormalizedIsSparse(ws: seq<Window>)
    ensures Sparse(Slots(Normalized(ws))) && |Slots(Normalized(ws))| == |Normalized(ws)| > 0
    ensures ShowAll(Slots(Normalized(ws))) == Normalized(ws)
  {
    hide Sparse, Canonical, ShowAll, DefaultWindows, SlotOf, Show;
    SlotsAreProper(ws);
    CanonicalIs(Slots(ws), Mon, 0);
    var c := Canonical(Slots(ws));
    SparseIsProper(c);
    ShowAllLength(c);
    if c == [] {
      DefaultSlots();
      DefaultsAreSparse();
      ThreeDefaults();
    } else {
      SlotsRoundTrip(c);
    }
  }

  lemma {:induction false} ShowAllLength(slots: seq<Slot>)
    ensures |ShowAll(slots)| == |slots|
  {
    if slots != [] {
      ShowAllLength(slots[..|slots| - 1]);
    }
  }

  lemma ThreeDefaults()
    ensures |DefaultWindows()| == 3
  {
  }

  lemma DefaultsAreSparse()
    ensures Sparse([Slot(Fri, Interval(300, 420)), Slot(Sat, Interval(1155, 1275)), Slot(Sun, Interval(1155, 1245))])
  {
  }

  /** So at most one window contains any minute. */
  lemma AtMostOneWindow(ws: seq<Window>, day: Weekday, t: nat, i: nat, j: nat)
    requires var n := Slots(Normalized(ws));
             && i < |n| && n[i].day == day && Within(t, n[i].span)
             && j < |n| && n[j].day == day && Within(t, n[j].span)
    ensures i == j
  {
    hide Slots, Normalized;
    NormalizedIsSparse(ws);
  }

  /** Normalising again changes nothing. */
  lemma NormalizingIsIdempotent(ws: seq<Window>)
    ensures Normalized(Normalized(ws)) == Normalized(ws)
  {
    hide Sparse, ShowAll, Slots, DefaultWindows;
    NormalizedIsSparse(ws);
    var slots := Slots(Normalized(ws));
    SparseIsFixed(slots, 7);
    assert Canonical(slots) == slots;
  }

  // ---------------------------------------------------------------- which texts are accepted, and as what

  const DAYS := ["monday", "tuesday", "wednesday", "thursday", "friday", "saturday", "sunday"]

  /** The name letter by letter, each one small or capital. */
  predicate Spells(raw: string, name: string) {
    |raw| == |name| && forall i :: 0 <= i < |raw| ==> raw[i] == name[i] || raw[i] as int == name[i] as int - 32
  }

  /** A day's full name, its first three letters, or one of three longer short forms. */
  predicate Names(raw: string, n: nat)
    requires n < 7
  {
    || Spells(raw, DAYS[n]) || Spells(raw, DAYS[n][..3])
    || (n == 1 && Spells(raw, "tues"))
    || (n == 3 && (Spells(raw, "thur") || Spells(raw, "thurs")))
  }

  lemma SpellsOneMore(raw: string, name: string)
    requires raw != [] && name != []
    ensures Spells(raw, name) <==> Spells(raw[..1], name[..1]) && Spells(raw[1..], name[1..])
  {
    if Spells(raw[..1], name[..1]) && Spells(raw[1..], name[1..]) {
      assert raw[..1][0] == raw[0];
      assert forall i :: 0 < i < |raw| ==> raw[i] == raw[1..][i - 1] && name[i] == name[1..][i - 1];
    }
  }

  lemma {:induction false} LowerIffSpells(raw: string, name: string)
    requires forall i :: 0 <= i < |name| ==> 'a' <= name[i] <= 'z'
    ensures Lower(raw) == name <==> Spells(raw, name)
  {
    if raw != [] && name != [] {
      SpellsOneMore(raw, name);
      LowerIffSpells(raw[1..], name[1..]);
      assert name == [name[0]] + name[1..];
      assert Spells(raw[..1], name[..1]) <==> Lower(raw)[0] == name[0];
    }
  }

  lemma FirstThree(n: nat)
    requires n < 7
    ensures |DAYS[n]| >= 3
    ensures DAYS[n][..3] == ["mon", "tue", "wed", "thu", "fri", "sat", "sun"][n]
  {
    assert DAYS[0][..3] == "mon" && DAYS[1][..3] == "tue" && DAYS[2][..3] == "wed" && DAYS[3][..3] == "thu";
    assert DAYS[4][..3] == "fri" && DAYS[5][..3] == "sat" && DAYS[6][..3] == "sun";
  }

  /** The nth day after Monday is read from its names in any case, and from nothing else. */
  lemma ParseWeekdayIff(raw: string, n: nat)
    requires n < 7
    ensures ParseWeekday(raw) == Some(WEEK[n]) <==> Names(raw, n)
  {
    hide Lower, Spells;
    FirstThree(n);
    LowerIffSpells(raw, DAYS[n]);
    LowerIffSpells(raw, DAYS[n][..3]);
    LowerIffSpells(raw, "tues");
    LowerIffSpells(raw, "thur");
    LowerIffSpells(raw, "thurs");
  }

  function Zeros(k: nat): string { seq(k, _ => '0') }

  /** A decimal numeral, with any number of zeros and perhaps a plus sign before it. */
  function Numeral(plus: bool, zeros: nat, n: nat): string {
    (if plus then "+" else "") + (Zeros(zeros) + Decimal(n))
  }

  lemma {:induction false} DecimalIs(n: nat)
    ensures AllDigits(Decimal(n)) && Decimal(n) != [] && Number(Decimal(n)) == n
  {
    if n >= 10 {
      DecimalIs(n / 10);
      DigitsAppend(Decimal(n / 10), n % 10);
    } else {
      DigitsAppend([], n);
    }
  }

  lemma DigitsAppend(s: string, d: nat)
    requires AllDigits(s) && d < 10
    ensures var t := s + [(d + '0' as int) as char];
            AllDigits(t) && Number(t) == 10 * Number(s) + d
  {
    var t := s + [(d + '0' as int) as char];
    assert t[..|t| - 1] == s;
  }

  lemma {:induction false} ZerosAddNothing(k: nat, s: string)
    requires AllDigits(s)
    ensures AllDigits(Zeros(k) + s) && Number(Zeros(k) + s) == Number(s)
  {
    if s == [] {
      if k > 0 {
        ZerosAddNothing(k - 1, []);
        assert Zeros(k) + s == (Zeros(k - 1) + []) + [(0 + '0' as int) as char];
        DigitsAppend(Zeros(k - 1) + [], 0);
      }
    } else {
      var n := |s| - 1;
      ZerosAddNothing(k, s[..n]);
      assert Zeros(k) + s == (Zeros(k) + s[..n]) + [s[n]];
      DigitsAppend(Zeros(k) + s[..n], DigitValue(s[n]));
    }
  }

  lemma DecimalAppend(n: nat, d: nat)
    requires d < 10
    ensures Decimal(10 * n + d) == (if n == 0 then [] else Decimal(n)) + [(d + '0' as int) as char]
  {
    assert (10 * n + d) / 10 == n && (10 * n + d) % 10 == d;
  }

  /** A text of digits is the numeral of its number after some zeros. */
  lemma {:induction false} DigitsAreNumeral(s: string) returns (zeros: nat)
    requires AllDigits(s) && s != []
    ensures s == Zeros(zeros) + Decimal(Number(s))
  {
    hide Decimal;
    var n := |s| - 1;
    var front, d := s[..n], DigitValue(s[n]);
    assert s == front + [(d + '0' as int) as char];
    DecimalAppend(Number(front), d);
    if n == 0 {
      zeros := 0;
    } else {
      zeros := DigitsAreNumeral(front);
      if Number(front) == 0 {
        DecimalAppend(0, 0);
        assert Zeros(zeros) + Decimal(0) == Zeros(zeros + 1);
        zeros := zeros + 1;
      }
    }
  }

  lemma NumeralIsRead(plus: bool, zeros: nat, n: nat)
    requires n < 0x1_0000_0000
    ensures ParseU32(Numeral(plus, zeros, n)) == Some(n)
    ensures forall i :: 0 <= i < |Numeral(plus, zeros, n)| ==> Numeral(plus, zeros, n)[i] != ':'
  {
    hide Number, Decimal;
    DecimalIs(n);
    ZerosAddNothing(zeros, Decimal(n));
    var digits := Zeros(zeros) + Decimal(n);
    assert digits[0] != '+' && IsDigit(digits[0]);
    if plus {
      assert Numeral(plus, zeros, n)[1..] == digits;
    } else {
      assert Numeral(plus, zeros, n) == digits;
    }
  }

  lemma ReadIsNumeral(s: string) returns (plus: bool, zeros: nat)
    requires ParseU32(s).Some?
    ensures s == Numeral(plus, zeros, ParseU32(s).value) && ParseU32(s).value < 0x1_0000_0000
  {
    hide Number, Decimal;
    plus := s != [] && s[0] == '+';
    if plus {
      zeros := DigitsAreNumeral(s[1..]);
      assert s == "+" + s[1..];
    } else {
      zeros := DigitsAreNumeral(s);
    }
  }

  lemma {:induction false} SplitOfOne(s: string)
    requires forall i :: 0 <= i < |s| ==> s[i] != ':'
    ensures Split(s) == [s]
  {
    if s != [] {
      SplitOfOne(s[1..]);
      assert [s[0]] + s[1..] == s;
    }
  }

  lemma {:induction false} SplitOfTwo(a: string, b: string)
    requires forall i :: 0 <= i < |a| ==> a[i] != ':'
    requires forall i :: 0 <= i < |b| ==> b[i] != ':'
    ensures Split(a + ":" + b) == [a, b]
  {
    hide Split;
    if a == [] {
      SplitOfOne(b);
      SplitCons(':', b);
      assert a + ":" + b == [':'] + b;
    } else {
      SplitOfTwo(a[1..], b);
      SplitCons(a[0], a[1..] + ":" + b);
      assert a + ":" + b == [a[0]] + (a[1..] + ":" + b) && [a[0]] + a[1..] == a;
    }
  }

  lemma {:induction false} SplitJoins(s: string)
    ensures |Split(s)| == 1 ==> Split(s)[0] == s
    ensures |Split(s)| == 2 ==> s == Split(s)[0] + ":" + Split(s)[1]
  {
    if s != [] {
      SplitJoins(s[1..]);
      assert s == [s[0]] + s[1..];
    }
  }

  /** A text is read as h hours and m minutes if and only if it is a numeral of h up to 23, a colon and a numeral
      of m up to 59. */
  lemma ParseTimeIff(raw: string, h: nat, m: nat)
    ensures ParseTime(raw) == Some(Time(h, m)) <==>
            && h <= 23 && m <= 59
            && exists p: bool, k: nat, q: bool, l: nat :: raw == Numeral(p, k, h) + ":" + Numeral(q, l, m)
  {
    hide Split, ParseU32, Numeral;
    if ParseTime(raw) == Some(Time(h, m)) {
      var parts := Split(raw);
      SplitJoins(raw);
      var p, k := ReadIsNumeral(parts[0]);
      var q, l := ReadIsNumeral(parts[1]);
      assert raw == Numeral(p, k, h) + ":" + Numeral(q, l, m);
    }
    if h <= 23 && m <= 59 {
      forall p: bool, k: nat, q: bool, l: nat | raw == Numeral(p, k, h) + ":" + Numeral(q, l, m)
        ensures ParseTime(raw) == Some(Time(h, m))
      {
        NumeralIsRead(p, k, h);
        NumeralIsRead(q, l, m);
        SplitOfTwo(Numeral(p, k, h), Numeral(q, l, m));
      }
    }
  }
}
