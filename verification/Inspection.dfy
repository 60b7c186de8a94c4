// The capture inspector of src/proxy_capture.rs: decoding one record and correlating requests with
// responses through a bounded table of pending requests.
module Inspection {
  import opened Bytes
  import opened Bon
  import opened Packet
  import Crypto
  import Redaction

  const MAX_WIRE_SIZE := 8 * 1024 * 1024
  const MAX_DECOMPRESSED_SIZE := 32 * 1024 * 1024
  const MAX_COMMAND_BYTES := 256
  const MAX_PENDING := 10_000
  const STALE_MS := 10 * 60 * 1000
  const UNKNOWN: Bytes := [60, 117, 110, 107, 110, 111, 119, 110, 62]

  datatype Direction = ClientToServer | ServerToClient
  datatype Encoding = X | Lx | Plain

  /** A capture record; payload is None for a binary record whose payload is missing or not base64. */
  datatype Record = Record(connection: Bytes, timestamp: nat, direction: Direction, binary: bool,
                           payload: Option<Bytes>)

  datatype DecodeError = BadPayload | BadMessage(why: ParseError) | LongCommand

  datatype Event = Event(
    direction: Direction, binary: bool, wireSize: nat, encoding: Option<Encoding>,
    cmd: Option<Bytes>, seqNo: nat, ack: nat, resp: nat, code: Option<int>, body: Option<Value>,
    matched: Option<Bytes>, latency: Option<nat>,
    decodeError: Option<DecodeError>, bodyError: Option<BodyError>)

  datatype Key = Key(connection: Bytes, number: nat)
  datatype Pending = Pending(cmd: Bytes, timestamp: nat)
  type Table = map<Key, Pending>

  function DetectEncoding(payload: Bytes): Encoding {
    if |payload| >= 2 && payload[..2] == Crypto.X_HEADER then X
    else if |payload| >= 2 && payload[..2] == Crypto.LX_HEADER then Lx
    else Plain
  }

  function Blank(r: Record): Event {
    Event(r.direction, r.binary, 0, None, None, 0, 0, 0, None, None, None, None, None, None)
  }

  /** The event for a record before correlation and redaction. */
  function EventOf(lib: Library, decompress: Bytes -> Option<Bytes>, r: Record): Event {
    if !r.binary then Blank(r)
    else if r.payload.None? then Blank(r).(decodeError := Some(BadPayload))
    else
      var p := r.payload.value;
      var e := Blank(r).(wireSize := |p|, encoding := Some(DetectEncoding(p)));
      match ParseMessage(lib, decompress, p, MAX_WIRE_SIZE, MAX_DECOMPRESSED_SIZE, PROXY_LIMITS)
      case Err(why) => e.(decodeError := Some(BadMessage(why)))
      case Ok(m) =>
        var long := CmdOf(m).Some? && |CmdOf(m).value| > MAX_COMMAND_BYTES;
        var body := RawData(lib, m);
        e.(cmd := if long then None else CmdOf(m),
           decodeError := if long then Some(LongCommand) else None,
           seqNo := U32Of(m, SEQ), ack := U32Of(m, ACK), resp := U32Of(m, RESP), code := CodeOf(m),
           body := if body.Ok? then body.value else None,
           bodyError := if body.Err? then Some(body.error) else None)
  }

  /** The event as it is handed on. */
  function Shown(e: Event, redact: bool): Event {
    if redact && e.body.Some? then e.(body := Some(Redaction.Redact(e.body.value))) else e
  }

  lemma StartsUnmatched(lib: Library, decompress: Bytes -> Option<Bytes>, r: Record)
    ensures EventOf(lib, decompress, r).matched == None && EventOf(lib, decompress, r).latency == None
  {
    hide ParseMessage, RawData;
  }

  // ---------------------------------------------------------------- correlation

  /** What a record means to the correlator. */
  datatype Sighting = Request(key: Key, pending: Pending) | Response(key: Key) | Other

  function Sight(r: Record, e: Event): Sighting {
    if r.direction == ServerToClient && e.resp > 0 then Response(Key(r.connection, e.resp))
    else if r.direction == ClientToServer && e.seqNo > 0 then
      Request(Key(r.connection, e.seqNo),
              Pending(if e.cmd.Some? then e.cmd.value else UNKNOWN, r.timestamp))
    else Other
  }

  /** A full table drops its stale requests, and everything if that does not help. */
  function Evict(t: Table, now: nat): Table {
    if |t| < MAX_PENDING then t
    else
      var kept := map k | k in t && t[k].timestamp >= MinusOrZero(now, STALE_MS) :: t[k];
      if |kept| < MAX_PENDING then kept else map[]
  }

  function Next(t: Table, s: Sighting): Table {
    match s
    case Request(key, p) => Evict(t, p.timestamp)[key := p]
    case Response(key) => t - {key}
    case Other => t
  }

  function MatchOf(t: Table, s: Sighting): Option<Pending> {
    if s.Response? && s.key in t then Some(t[s.key]) else None
  }

  /** What inspecting one record leaves and shows. */
  function Inspected(lib: Library, decompress: Bytes -> Option<Bytes>, redact: bool, t: Table, r: Record)
    : (Table, Event)
  {
    var e := EventOf(lib, decompress, r);
    var s := Sight(r, e);
    var m := MatchOf(t, s);
    (Next(t, s),
     Shown(e.(matched := if m.Some? then Some(m.value.cmd) else None,
              latency := if m.Some? then Some(MinusOrZero(r.timestamp, m.value.timestamp)) else None),
           redact))
  }

  class Inspector {
    var pending: Table
    const redactSensitive: bool

    constructor (redactSensitive: bool)
      ensures pending == map[] && this.redactSensitive == redactSensitive
    {
      pending := map[];
      this.redactSensitive := redactSensitive;
    }

    /** inspect */
    method Inspect(lib: Library, decompress: Bytes -> Option<Bytes>, record: Record) returns (event: Event)
      requires |pending| <= MAX_PENDING
      modifies this
      ensures (pending, event) == Inspected(lib, decompress, redactSensitive, old(pending), record)
      ensures |pending| <= MAX_PENDING
    {
      hide EventOf, Redaction.Redact;
      event := EventOf(lib, decompress, record);
      StartsUnmatched(lib, decompress, record);
      NextIsBounded(pending, Sight(record, event));
      if record.direction == ServerToClient && event.resp > 0 {
        var key := Key(record.connection, event.resp);
        if key in pending {
          var request := pending[key];
          pending := pending - {key};
          event := event.(latency := Some(MinusOrZero(record.timestamp, request.timestamp)),
                          matched := Some(request.cmd));
        } else {
          assert pending - {key} == pending;
        }
      }
      if record.direction == ClientToServer && event.seqNo > 0 {
        if |pending| >= MAX_PENDING {
          var cutoff := MinusOrZero(record.timestamp, STALE_MS);
          pending := map k | k in pending && pending[k].timestamp >= cutoff :: pending[k];
          if |pending| >= MAX_PENDING {
            pending := map[];
          }
        }
        pending := pending[Key(record.connection, event.seqNo)
                           := Pending(if event.cmd.Some? then event.cmd.value else UNKNOWN, record.timestamp)];
      }
      if redactSensitive && event.body.Some? {
        var redacted := Redaction.RedactValue(event.body.value);
        event := event.(body := Some(redacted));
      }
    }
  }

  // ---------------------------------------------------------------- the table without eviction

  function Keep(t: Table, s: Sighting): Table {
    match s
    case Request(key, p) => t[key := p]
    case Response(key) => t - {key}
    case Other => t
  }

  function Bounded(history: seq<Sighting>): Table {
    if history == [] then map[] else Next(Bounded(history[..|history| - 1]), history[|history| - 1])
  }

  function Unbounded(history: seq<Sighting>): Table {
    if history == [] then map[] else Keep(Unbounded(history[..|history| - 1]), history[|history| - 1])
  }

  predicate Submap(a: Table, b: Table) { forall k :: k in a ==> k in b && a[k] == b[k] }

  lemma EvictShrinks(t: Table, now: nat)
    ensures Submap(Evict(t, now), t) && |Evict(t, now)| < MAX_PENDING
  {
  }

  lemma NextIsBounded(t: Table, s: Sighting)
    requires |t| <= MAX_PENDING
    ensures |Next(t, s)| <= MAX_PENDING
  {
    match s
    case Request(key, p) =>
      var kept := Evict(t, p.timestamp);
      EvictShrinks(t, p.timestamp);
      assert kept[key := p].Keys == kept.Keys + {key};
    case Response(key) =>
      assert (t - {key}).Keys <= t.Keys;
      SubsetIsNoLarger((t - {key}).Keys, t.Keys);
    case Other =>
  }

  lemma {:induction false} SubsetIsNoLarger(a: set<Key>, b: set<Key>)
    requires a <= b
    ensures |a| <= |b|
  {
    if a != {} {
      var k :| k in a;
      SubsetIsNoLarger(a - {k}, b - {k});
    }
  }

  /** Over any history the bounded table is part of the one kept without eviction, and within its bound. */
  lemma {:induction false} BoundedRefinesUnbounded(history: seq<Sighting>)
    ensures Submap(Bounded(history), Unbounded(history))
    ensures |Bounded(history)| <= MAX_PENDING
  {
    if history != [] {
      var before, s := history[..|history| - 1], history[|history| - 1];
      BoundedRefinesUnbounded(before);
      NextIsBounded(Bounded(before), s);
      if s.Request? {
        EvictShrinks(Bounded(before), s.pending.timestamp);
      }
    }
  }

  /** As long as fewer than the maximum are pending, nothing is ever evicted and the two agree. */
  lemma {:induction false} NoEvictionBelowTheBound(history: seq<Sighting>)
    requires forall n :: 0 <= n < |history| ==> |Unbounded(history[..n])| < MAX_PENDING
    ensures Bounded(history) == Unbounded(history)
  {
    hide Next, Keep;
    if history != [] {
      var n := |history| - 1;
      assert forall m :: 0 <= m < n ==> history[..n][..m] == history[..m];
      NoEvictionBelowTheBound(history[..n]);
      RoomKeepsAll(Bounded(history[..n]), history[n]);
    }
  }

  lemma RoomKeepsAll(t: Table, s: Sighting)
    requires |t| < MAX_PENDING
    ensures Next(t, s) == Keep(t, s)
  {
  }

  // ---------------------------------------------------------------- which request a response is matched to

  /** The index of the request still open under a key: the last sighting of the key, if it is a request. */
  function Origin(history: seq<Sighting>, key: Key): (r: Option<nat>)
    ensures r.Some? ==> r.value < |history|
  {
    if history == [] then None
    else
      var n := |history| - 1;
      var s := history[n];
      if s.Request? && s.key == key then Some(n)
      else if s.Response? && s.key == key then None
      else Origin(history[..n], key)
  }

  lemma {:induction false} UnboundedHoldsTheOrigins(history: seq<Sighting>, key: Key)
    ensures var o := Origin(history, key);
            && (key in Unbounded(history) <==> o.Some?)
            && (o.Some? ==> history[o.value].Request? && history[o.value].key == key
                            && Unbounded(history)[key] == history[o.value].pending)
  {
    if history != [] {
      UnboundedHoldsTheOrigins(history[..|history| - 1], key);
    }
  }

  /** The request matched by the response at index i, if the table still holds it. */
  function MatchedAt(history: seq<Sighting>, i: nat): Option<Pending>
    requires i < |history|
  {
    MatchOf(Bounded(history[..i]), history[i])
  }

  /** A match is never wrong: it is the latest request with that connection and number, seen since the
      last response to it. Eviction can only turn it into a miss. */
  lemma MatchIsTheLatestRequest(history: seq<Sighting>, i: nat)
    requires i < |history| && MatchedAt(history, i).Some?
    ensures var o := Origin(history[..i], history[i].key);
            && o.Some? && history[o.value].Request? && history[o.value].key == history[i].key
            && MatchedAt(history, i).value == history[o.value].pending
  {
    BoundedRefinesUnbounded(history[..i]);
    UnboundedHoldsTheOrigins(history[..i], history[i].key);
  }

  lemma {:induction false} OriginAfterResponse(history: seq<Sighting>, key: Key, i: nat)
    requires i < |history| && history[i] == Response(key)
    ensures Origin(history, key).Some? ==> Origin(history, key).value > i
  {
    var n := |history| - 1;
    if i < n {
      OriginAfterResponse(history[..n], key, i);
    }
  }

  /** Two responses are never matched to the same request. */
  lemma MatchedAtMostOnce(history: seq<Sighting>, i: nat, j: nat)
    requires i < j < |history| && MatchedAt(history, i).Some? && MatchedAt(history, j).Some?
    ensures Origin(history[..i], history[i].key) != Origin(history[..j], history[j].key)
  {
    MatchIsTheLatestRequest(history, i);
    MatchIsTheLatestRequest(history, j);
    if history[i].key == history[j].key {
      OriginAfterResponse(history[..j], history[j].key, i);
    }
  }
}
