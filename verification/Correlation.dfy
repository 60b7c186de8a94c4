// What the capture inspector of src/proxy_capture.rs shows: the fields of a packet that was sent, the fields
// of any decoded message, and over a stream of records which response belongs to which request.
module Correlation {
  import opened Bytes
  import opened BonWire
  import opened Bon
  import opened BonRoundTrip
  import opened Packet
  import opened Inspection
  import Crypto
  import Redaction
  import Utf8

  // ---------------------------------------------------------------- one record

  /** A number field as the accessors give it: zero unless it is an integer of 32 bits. */
  function NumberAt(fs: seq<Field>, name: string): nat {
    match Lookup(fs, Ascii(name))
    case Some(Int(i)) => if 0 <= i < 0x1_0000_0000 then i else 0
    case _ => 0
  }

  /** A decoded message is shown with its own fields, whatever its encoding and direction: the command if it
      has at most 256 bytes, and the numbers under "seq", "ack", "resp" and "code". */
  lemma FieldsAreShown(lib: Library, decompress: Bytes -> Option<Bytes>, redact: bool, t: Table, r: Record,
                       p: Bytes, m: ProtoMsg)
    requires r.binary && r.payload == Some(p)
    requires ParseMessage(lib, decompress, p, 8 * 1024 * 1024, 32 * 1024 * 1024,
                          Limits(64, 100_000, 16 * 1024 * 1024, 200_000, 32 * 1024 * 1024)) == Ok(m)
    ensures var e := Inspected(lib, decompress, redact, t, r).1;
            && e.direction == r.direction && e.binary && e.wireSize == |p|
            && e.seqNo == NumberAt(m.raw, "seq") && e.ack == NumberAt(m.raw, "ack")
            && e.resp == NumberAt(m.raw, "resp")
            && e.code == (match Lookup(m.raw, Ascii("code"))
                          case Some(Int(i)) => if -0x8000_0000 <= i < 0x8000_0000 then Some(i) else None
                          case _ => None)
            && (match Lookup(m.raw, Ascii("cmd"))
                case Some(Text(c)) => if |c| <= 256 then e.cmd == Some(c) && e.decodeError == None
                                      else e.cmd == None && e.decodeError == Some(LongCommand)
                case _ => e.cmd == None && e.decodeError == None)
            && e.body == (if RawData(lib, m).Err? || RawData(lib, m).value.None? then None
                          else Some(if redact then Redaction.Redact(RawData(lib, m).value.value)
                                    else RawData(lib, m).value.value))
            && e.bodyError == (if RawData(lib, m).Err? then Some(RawData(lib, m).error) else None)
  {
    hide ParseMessage, RawData, Redaction.Redact, Lookup, Next, MatchOf, DetectEncoding;
    KeysAreNamed();
  }

  /** A record that is not a decodable message shows nothing but why, and touches no pending request. */
  lemma OthersShowNothing(lib: Library, decompress: Bytes -> Option<Bytes>, redact: bool, t: Table, r: Record)
    requires r.binary && r.payload.Some? ==>
               ParseMessage(lib, decompress, r.payload.value, 8 * 1024 * 1024, 32 * 1024 * 1024, PROXY_LIMITS).Err?
    ensures var (u, e) := Inspected(lib, decompress, redact, t, r);
            && u == t && e.cmd == None && e.seqNo == e.ack == e.resp == 0 && e.code == None && e.body == None
            && e.matched == None && e.latency == None
            && (e.decodeError.Some? <==> r.binary)
  {
    hide ParseMessage, RawData, Redaction.Redact;
  }

  /** The encoding is told by the first two bytes: "px" and "pl". */
  lemma EncodingIsShown(lib: Library, decompress: Bytes -> Option<Bytes>, redact: bool, t: Table, r: Record, p: Bytes)
    requires r.binary && r.payload == Some(p)
    ensures Inspected(lib, decompress, redact, t, r).1.encoding
            == Some(if Ascii("px") <= p then X else if Ascii("pl") <= p then Lx else Plain)
  {
    hide ParseMessage, RawData, Redaction.Redact, Next, MatchOf;
    assert Ascii("px") == [112, 120] && Ascii("pl") == [112, 108];
    assert |p| >= 2 ==> p[..2] == [p[0], p[1]];
  }

  /** A packet that was sent is shown as it was built, with no reply number and no code. */
  lemma SentPacketIsShown(lib: Library, decompress: Bytes -> Option<Bytes>, redact: bool, t: Table, r: Record,
                          cmd: Bytes, ack: nat, seqNo: nat, time: int, body: Option<Value>, mask: Byte, prefix: Bytes)
    requires RoundsToEightBytes(lib) && Utf8.Valid(cmd) && |cmd| < TWO_32 && |prefix| == 4
    requires ack < TWO_32 && seqNo < TWO_32 && IsI64(time) && Sendable(lib, body)
    requires var packet := EncodePacket(lib, Head(cmd, ack, seqNo, time), body);
             && |packet| + 4 <= 8 * 1024 * 1024 && PacketFits(PROXY_LIMITS, cmd, BlobOption(lib, body))
             && r.binary && r.payload == Some(Crypto.EncryptX(packet, mask, prefix))
    ensures var e := Inspected(lib, decompress, redact, t, r).1;
            && e.seqNo == seqNo && e.ack == ack && e.resp == 0 && e.code == None
            && e.wireSize == |EncodePacket(lib, Head(cmd, ack, seqNo, time), body)| + 4 && e.encoding == Some(X)
            && e.cmd == (if |cmd| <= 256 then Some(cmd) else None)
            && e.decodeError == (if |cmd| <= 256 then None else Some(LongCommand))
            && (match BodyImage(lib, PROXY_LIMITS, body)
                case Ok(None) => e.body == None && e.bodyError == None
                case Ok(Some(b)) => e.body == Some(if redact then Redaction.Redact(b) else b) && e.bodyError == None
                case Err(why) => e.body == None && e.bodyError == Some(why))
  {
    hide ParseMessage, RawData, EncodePacket, Crypto.EncryptX, BodyImage, PacketFits, Sendable, Redaction.Redact,
         Lookup, Next, MatchOf, TimeOf, Utf8.Valid;
    var packet := EncodePacket(lib, Head(cmd, ack, seqNo, time), body);
    var wire := Crypto.EncryptX(packet, mask, prefix);
    Crypto.DecryptOfEncryptX(packet, mask, prefix);
    PacketRoundTrip(lib, decompress, cmd, ack, seqNo, time, body, mask, prefix, 8 * 1024 * 1024, 32 * 1024 * 1024,
                    PROXY_LIMITS);
  }

  lemma {:induction false} LookupImage(lib: Library, fs: seq<Field>, key: Bytes)
    ensures Lookup(ImageOfFields(lib, fs), key)
            == (match Lookup(fs, key) case Some(v) => Some(Image(lib, v)) case None => None)
  {
    hide Image;
    if fs != [] {
      LookupImage(lib, fs[1..], key);
      assert ImageOfFields(lib, fs)[1..] == ImageOfFields(lib, fs[1..]);
    }
  }

  /** What the server sends: any object, encoded and encrypted, whose "resp" and "code" are shown as they are. */
  lemma ServerMessageIsShown(lib: Library, decompress: Bytes -> Option<Bytes>, redact: bool, t: Table, r: Record,
                             fs: seq<Field>, mask: Byte, prefix: Bytes, resp: nat)
    requires RoundsToEightBytes(lib) && |prefix| == 4 && CostOf(Object(fs)).nodes <= TWO_32
    requires WellFormed(Object(fs)) && Measurable(Object(fs))
    requires Fits(CostOf(Object(fs)), PROXY_LIMITS, 0, PROXY_LIMITS.nodes, PROXY_LIMITS.total)
    requires var data := Encode(lib, Object(fs), map[]).bytes;
             |data| + 4 <= 8 * 1024 * 1024 && r.binary && r.payload == Some(Crypto.EncryptX(data, mask, prefix))
    requires Lookup(fs, Ascii("resp")) == Some(Int(resp)) && resp < TWO_32
    ensures var e := Inspected(lib, decompress, redact, t, r).1;
            && e.resp == resp
            && (forall c :: Lookup(fs, Ascii("code")) == Some(Int(c)) && IsI32(c) ==> e.code == Some(c))
  {
    hide RawData, Crypto.EncryptX, Crypto.DecryptX, Redaction.Redact, Decode, Encode, WellFormed, Measurable, CostOf,
         Fits, ImageOfFields, Lookup;
    var data := Encode(lib, Object(fs), map[]).bytes;
    Crypto.DecryptOfEncryptX(data, mask, prefix);
    assert data + [] == data;
    DecodeOfEncode(lib, PROXY_LIMITS, Object(fs), []);
    var m := ProtoMsg(ImageOfFields(lib, fs), PROXY_LIMITS);
    assert ParseMessage(lib, decompress, r.payload.value, 8 * 1024 * 1024, 32 * 1024 * 1024, PROXY_LIMITS) == Ok(m);
    FieldsAreShown(lib, decompress, redact, t, r, r.payload.value, m);
    LookupImage(lib, fs, Ascii("resp"));
    LookupImage(lib, fs, Ascii("code"));
  }

  // ---------------------------------------------------------------- a request and its response

  function CommandOr(cmd: Option<Bytes>): Bytes { if cmd.Some? then cmd.value else Ascii("<unknown>") }

  /** A numbered request followed by a response on the same connection: the response is matched with the
      request's command and shows the time between them, and the request is no longer pending. */
  lemma PairIsMatched(lib: Library, decompress: Bytes -> Option<Bytes>, redact: bool, t: Table, rq: Record, rs: Record)
    requires var (u, e) := Inspected(lib, decompress, redact, t, rq);
             var f := Inspected(lib, decompress, redact, u, rs).1;
             && rq.direction == ClientToServer && rs.direction == ServerToClient && rq.connection == rs.connection
             && e.seqNo == f.resp > 0
    ensures var (u, e) := Inspected(lib, decompress, redact, t, rq);
            var (w, f) := Inspected(lib, decompress, redact, u, rs);
            && f.matched == Some(CommandOr(e.cmd))
            && f.latency == Some(if rs.timestamp >= rq.timestamp then rs.timestamp - rq.timestamp else 0)
            && w == u - {Key(rq.connection, e.seqNo)} && e.matched == None && e.latency == None
  {
    hide EventOf, Evict;
    StartsUnmatched(lib, decompress, rq);
    UnknownIsNamed();
  }

  /** The whole exchange on the wire: the packet as it is built and encrypted, and the server's answer to it. */
  lemma ExchangeIsMatched(lib: Library, decompress: Bytes -> Option<Bytes>, redact: bool, t: Table, rq: Record,
                          rs: Record, cmd: Bytes, ack: nat, seqNo: nat, time: int, body: Option<Value>, mask: Byte,
                          prefix: Bytes, fs: seq<Field>, mask': Byte, prefix': Bytes)
    requires RoundsToEightBytes(lib) && Utf8.Valid(cmd) && |cmd| <= 256 && |prefix| == |prefix'| == 4
    requires ack < TWO_32 && 0 < seqNo < TWO_32 && IsI64(time) && Sendable(lib, body)
    requires var packet := EncodePacket(lib, Head(cmd, ack, seqNo, time), body);
             && |packet| + 4 <= 8 * 1024 * 1024 && PacketFits(PROXY_LIMITS, cmd, BlobOption(lib, body))
             && rq.binary && rq.payload == Some(Crypto.EncryptX(packet, mask, prefix))
    requires CostOf(Object(fs)).nodes <= TWO_32 && WellFormed(Object(fs)) && Measurable(Object(fs))
    requires Fits(CostOf(Object(fs)), PROXY_LIMITS, 0, PROXY_LIMITS.nodes, PROXY_LIMITS.total)
    requires var data := Encode(lib, Object(fs), map[]).bytes;
             |data| + 4 <= 8 * 1024 * 1024 && rs.binary && rs.payload == Some(Crypto.EncryptX(data, mask', prefix'))
    requires rq.direction == ClientToServer && rs.direction == ServerToClient && rq.connection == rs.connection
    requires Lookup(fs, Ascii("resp")) == Some(Int(seqNo))
    ensures var u := Inspected(lib, decompress, redact, t, rq).0;
            var f := Inspected(lib, decompress, redact, u, rs).1;
            && f.matched == Some(cmd)
            && f.latency == Some(if rs.timestamp >= rq.timestamp then rs.timestamp - rq.timestamp else 0)
  {
    hide EncodePacket, Encode, Crypto.EncryptX, PacketFits, Sendable, Inspected, Fits, CostOf, WellFormed, Measurable,
         BodyImage, Lookup, Utf8.Valid;
    SentPacketIsShown(lib, decompress, redact, t, rq, cmd, ack, seqNo, time, body, mask, prefix);
    var u := Inspected(lib, decompress, redact, t, rq).0;
    ServerMessageIsShown(lib, decompress, redact, u, rs, fs, mask', prefix', seqNo);
    PairIsMatched(lib, decompress, redact, t, rq, rs);
  }

  /** The requests of the last ten minutes. */
  function Young(t: Table, now: nat): Table { map k | k in t && t[k].timestamp + 600_000 >= now :: t[k] }

  /** A request that finds ten thousand pending drops those of more than ten minutes ago, and all of them if
      that leaves ten thousand still; below that nothing is dropped. */
  lemma EvictionIsExact(lib: Library, decompress: Bytes -> Option<Bytes>, redact: bool, t: Table, r: Record)
    requires r.direction == ClientToServer && Inspected(lib, decompress, redact, t, r).1.seqNo > 0
    ensures var (u, e) := Inspected(lib, decompress, redact, t, r);
            u == (if |t| < 10_000 then t else if |Young(t, r.timestamp)| < 10_000 then Young(t, r.timestamp) else map[])
                 [Key(r.connection, e.seqNo) := Pending(CommandOr(e.cmd), r.timestamp)]
  {
    hide Inspected, Evict, Young, CommandOr;
    RequestIsFiled(lib, decompress, redact, t, r);
    EvictedAre(t, r.timestamp);
  }

  lemma RequestIsFiled(lib: Library, decompress: Bytes -> Option<Bytes>, redact: bool, t: Table, r: Record)
    requires r.direction == ClientToServer && Inspected(lib, decompress, redact, t, r).1.seqNo > 0
    ensures var (u, e) := Inspected(lib, decompress, redact, t, r);
            u == Evict(t, r.timestamp)[Key(r.connection, e.seqNo) := Pending(CommandOr(e.cmd), r.timestamp)]
  {
    hide EventOf, Evict, Ascii;
    UnknownIsNamed();
  }

  lemma UnknownIsNamed()
    ensures UNKNOWN == Ascii("<unknown>")
  {
  }

  lemma EvictedAre(t: Table, now: nat)
    ensures Evict(t, now) == if |t| < 10_000 then t else if |Young(t, now)| < 10_000 then Young(t, now) else map[]
  {
    var kept := map k | k in t && t[k].timestamp >= MinusOrZero(now, STALE_MS) :: t[k];
    assert kept == Young(t, now);
  }

  // ---------------------------------------------------------------- a stream of records

  /** The inspector after a stream of records. */
  function TableAfter(lib: Library, decompress: Bytes -> Option<Bytes>, rs: seq<Record>): Table {
    if rs == [] then map[]
    else Inspected(lib, decompress, false, TableAfter(lib, decompress, rs[..|rs| - 1]), rs[|rs| - 1]).0
  }

  /** The event shown for one record of a stream. */
  function EventAt(lib: Library, decompress: Bytes -> Option<Bytes>, rs: seq<Record>, i: nat): Event
    requires i < |rs|
  {
    Inspected(lib, decompress, false, TableAfter(lib, decompress, rs[..i]), rs[i]).1
  }

  /** A record that asks or answers under that connection and number. */
  predicate Asks(lib: Library, decompress: Bytes -> Option<Bytes>, rs: seq<Record>, i: nat, connection: Bytes, n: nat)
    requires i < |rs|
  {
    rs[i].direction == ClientToServer && rs[i].connection == connection && EventAt(lib, decompress, rs, i).seqNo == n
  }

  predicate AnswersAt(lib: Library, decompress: Bytes -> Option<Bytes>, rs: seq<Record>, i: nat, connection: Bytes,
                      n: nat)
    requires i < |rs|
  {
    rs[i].direction == ServerToClient && rs[i].connection == connection && EventAt(lib, decompress, rs, i).resp == n
  }

  /** The request at j is open at i: nothing has asked or answered under its connection and number since. */
  predicate IsOpen(lib: Library, decompress: Bytes -> Option<Bytes>, rs: seq<Record>, j: nat, i: nat,
                   connection: Bytes, n: nat)
    requires j < i <= |rs|
  {
    && Asks(lib, decompress, rs, j, connection, n)
    && forall k :: j < k < i ==> !Asks(lib, decompress, rs, k, connection, n)
                                 && !AnswersAt(lib, decompress, rs, k, connection, n)
  }

  lemma PrefixEvents(lib: Library, decompress: Bytes -> Option<Bytes>, rs: seq<Record>, n: nat, i: nat)
    requires i < n <= |rs|
    ensures EventAt(lib, decompress, rs[..n], i) == EventAt(lib, decompress, rs, i)
  {
    hide Inspected;
    assert rs[..n][..i] == rs[..i];
  }

  /** What one record does to the request under a key, and what its event says of it. */
  lemma OneRecord(lib: Library, decompress: Bytes -> Option<Bytes>, t: Table, r: Record, connection: Bytes, n: nat)
    requires n > 0
    ensures var (u, e) := Inspected(lib, decompress, false, t, r);
            var key := Key(connection, n);
            var asks := r.direction == ClientToServer && r.connection == connection && e.seqNo == n;
            var answers := r.direction == ServerToClient && r.connection == connection && e.resp == n;
            && (asks ==> key in u && u[key] == Pending(CommandOr(e.cmd), r.timestamp))
            && (answers ==> key !in u && e.matched == (if key in t then Some(t[key].cmd) else None)
                            && e.latency == (if key in t then Some(Since(r.timestamp, t[key].timestamp)) else None))
            && (!asks && !answers ==> (key in u ==> key in t && u[key] == t[key])
                                      && (|t| < 10_000 && key in t ==> key in u && u[key] == t[key]))
  {
    hide EventOf, Next, MatchOf;
    StartsUnmatched(lib, decompress, r);
    UnknownIsNamed();
    UnderKey(t, Sight(r, EventOf(lib, decompress, r)), Key(connection, n));
  }

  /** What a sighting does to the entry of one key. */
  lemma UnderKey(t: Table, s: Sighting, key: Key)
    ensures var u := Next(t, s);
            && (s.Request? && s.key == key ==> key in u && u[key] == s.pending)
            && (s.Response? && s.key == key ==>
                  key !in u && MatchOf(t, s) == (if key in t then Some(t[key]) else None))
            && (s.Other? || s.key != key ==>
                  (key in u ==> key in t && u[key] == t[key])
                  && (|t| < 10_000 && key in t ==> key in u && u[key] == t[key]))
  {
  }

  function Since(now: nat, past: nat): nat { if now >= past then now - past else 0 }

  lemma LastRecord(lib: Library, decompress: Bytes -> Option<Bytes>, rs: seq<Record>)
    requires rs != []
    ensures var m := |rs| - 1;
            var (u, e) := Inspected(lib, decompress, false, TableAfter(lib, decompress, rs[..m]), rs[m]);
            TableAfter(lib, decompress, rs) == u && EventAt(lib, decompress, rs, m) == e
  {
    hide Inspected;
  }

  lemma OpenExtends(lib: Library, decompress: Bytes -> Option<Bytes>, rs: seq<Record>, j: nat, connection: Bytes,
                    n: nat)
    requires j < |rs| - 1
    ensures var m := |rs| - 1;
            IsOpen(lib, decompress, rs, j, |rs|, connection, n)
            <==> IsOpen(lib, decompress, rs[..m], j, m, connection, n)
                 && !Asks(lib, decompress, rs, m, connection, n) && !AnswersAt(lib, decompress, rs, m, connection, n)
  {
    hide EventAt;
    var m := |rs| - 1;
    forall k | 0 <= k < m
      ensures Asks(lib, decompress, rs[..m], k, connection, n) == Asks(lib, decompress, rs, k, connection, n)
      ensures AnswersAt(lib, decompress, rs[..m], k, connection, n) == AnswersAt(lib, decompress, rs, k, connection, n)
    {
      PrefixEvents(lib, decompress, rs, m, k);
    }
  }

  /** What the request at j would leave pending. */
  function PendingOf(lib: Library, decompress: Bytes -> Option<Bytes>, rs: seq<Record>, j: nat): Pending
    requires j < |rs|
  {
    Pending(CommandOr(EventAt(lib, decompress, rs, j).cmd), rs[j].timestamp)
  }

  /** Whatever is pending under a key is the open request of that key. */
  lemma {:induction false} PendingIsOpen(lib: Library, decompress: Bytes -> Option<Bytes>, rs: seq<Record>,
                                         connection: Bytes, n: nat) returns (j: nat)
    requires n > 0 && Key(connection, n) in TableAfter(lib, decompress, rs)
    ensures j < |rs| && IsOpen(lib, decompress, rs, j, |rs|, connection, n)
    ensures TableAfter(lib, decompress, rs)[Key(connection, n)] == PendingOf(lib, decompress, rs, j)
  {
    hide Inspected, IsOpen;
    var m := |rs| - 1;
    LastRecord(lib, decompress, rs);
    OneRecord(lib, decompress, TableAfter(lib, decompress, rs[..m]), rs[m], connection, n);
    if Asks(lib, decompress, rs, m, connection, n) {
      j := m;
      JustAsked(lib, decompress, rs, connection, n);
    } else {
      j := PendingIsOpen(lib, decompress, rs[..m], connection, n);
      OpenExtends(lib, decompress, rs, j, connection, n);
      PrefixEvents(lib, decompress, rs, m, j);
    }
  }

  lemma JustAsked(lib: Library, decompress: Bytes -> Option<Bytes>, rs: seq<Record>, connection: Bytes, n: nat)
    requires rs != [] && Asks(lib, decompress, rs, |rs| - 1, connection, n)
    ensures IsOpen(lib, decompress, rs, |rs| - 1, |rs|, connection, n)
  {
    hide EventAt;
  }

  /** Fewer than ten thousand are pending at any time before the end. */
  predicate Roomy(lib: Library, decompress: Bytes -> Option<Bytes>, rs: seq<Record>) {
    forall k :: 0 <= k < |rs| ==> |TableAfter(lib, decompress, rs[..k])| < 10_000
  }

  /** With room the open request of a key is pending. */
  lemma {:induction false} OpenIsPending(lib: Library, decompress: Bytes -> Option<Bytes>, rs: seq<Record>, j: nat,
                                         connection: Bytes, n: nat)
    requires n > 0 && j < |rs| && Roomy(lib, decompress, rs) && IsOpen(lib, decompress, rs, j, |rs|, connection, n)
    ensures Key(connection, n) in TableAfter(lib, decompress, rs)
    ensures TableAfter(lib, decompress, rs)[Key(connection, n)] == PendingOf(lib, decompress, rs, j)
  {
    hide Inspected;
    var m := |rs| - 1;
    LastRecord(lib, decompress, rs);
    OneRecord(lib, decompress, TableAfter(lib, decompress, rs[..m]), rs[m], connection, n);
    if j < m {
      OpenExtends(lib, decompress, rs, j, connection, n);
      RoomyPrefix(lib, decompress, rs);
      OpenIsPending(lib, decompress, rs[..m], j, connection, n);
      PrefixEvents(lib, decompress, rs, m, j);
    }
  }

  lemma RoomyPrefix(lib: Library, decompress: Bytes -> Option<Bytes>, rs: seq<Record>)
    requires rs != [] && Roomy(lib, decompress, rs)
    ensures Roomy(lib, decompress, rs[..|rs| - 1]) && |TableAfter(lib, decompress, rs[..|rs| - 1])| < 10_000
  {
    hide TableAfter;
    var front := rs[..|rs| - 1];
    forall k | 0 <= k < |front| ensures |TableAfter(lib, decompress, front[..k])| < 10_000 {
      assert front[..k] == rs[..k];
    }
  }

  /** In any stream, a response that shows a request shows the open one of its connection and number, with that
      request's command and the time since. */
  lemma MatchesAreRight(lib: Library, decompress: Bytes -> Option<Bytes>, rs: seq<Record>, i: nat) returns (j: nat)
    requires i < |rs| && EventAt(lib, decompress, rs, i).matched.Some?
    ensures var e := EventAt(lib, decompress, rs, i);
            && j < i && rs[i].direction == ServerToClient && e.resp > 0
            && IsOpen(lib, decompress, rs, j, i, rs[i].connection, e.resp)
            && e.matched == Some(CommandOr(EventAt(lib, decompress, rs, j).cmd))
            && e.latency == Some(Since(rs[i].timestamp, rs[j].timestamp))
  {
    hide IsOpen, TableAfter;
    var e, t := EventAt(lib, decompress, rs, i), TableAfter(lib, decompress, rs[..i]);
    OnlyAnswersMatch(lib, decompress, t, rs[i]);
    OneRecord(lib, decompress, t, rs[i], rs[i].connection, e.resp);
    j := PendingIsOpen(lib, decompress, rs[..i], rs[i].connection, e.resp);
    OpenInPrefix(lib, decompress, rs, j, i, rs[i].connection, e.resp);
    PrefixEvents(lib, decompress, rs, i, j);
  }

  lemma OnlyAnswersMatch(lib: Library, decompress: Bytes -> Option<Bytes>, t: Table, r: Record)
    ensures var e := Inspected(lib, decompress, false, t, r).1;
            e.matched.Some? ==> r.direction == ServerToClient && e.resp > 0
  {
    hide EventOf;
    StartsUnmatched(lib, decompress, r);
  }

  lemma OpenInPrefix(lib: Library, decompress: Bytes -> Option<Bytes>, rs: seq<Record>, j: nat, i: nat,
                     connection: Bytes, n: nat)
    requires j < i <= |rs|
    ensures IsOpen(lib, decompress, rs[..i], j, i, connection, n) <==> IsOpen(lib, decompress, rs, j, i, connection, n)
  {
    hide EventAt;
    forall k | 0 <= k < i
      ensures Asks(lib, decompress, rs[..i], k, connection, n) == Asks(lib, decompress, rs, k, connection, n)
      ensures AnswersAt(lib, decompress, rs[..i], k, connection, n) == AnswersAt(lib, decompress, rs, k, connection, n)
    {
      PrefixEvents(lib, decompress, rs, i, k);
    }
  }

  /** While fewer than ten thousand are pending, a response is matched whenever a request with its connection
      and number is open. */
  lemma OpenRequestsAreMatched(lib: Library, decompress: Bytes -> Option<Bytes>, rs: seq<Record>, i: nat, j: nat)
    requires j < i < |rs| && rs[i].direction == ServerToClient && EventAt(lib, decompress, rs, i).resp > 0
    requires IsOpen(lib, decompress, rs, j, i, rs[i].connection, EventAt(lib, decompress, rs, i).resp)
    requires Roomy(lib, decompress, rs[..i])
    ensures var e := EventAt(lib, decompress, rs, i);
            && e.matched == Some(CommandOr(EventAt(lib, decompress, rs, j).cmd))
            && e.latency == Some(Since(rs[i].timestamp, rs[j].timestamp))
  {
    hide IsOpen, TableAfter, Inspected, Roomy;
    var e, t := EventAt(lib, decompress, rs, i), TableAfter(lib, decompress, rs[..i]);
    OpenInPrefix(lib, decompress, rs, j, i, rs[i].connection, e.resp);
    OpenIsPending(lib, decompress, rs[..i], j, rs[i].connection, e.resp);
    OneRecord(lib, decompress, t, rs[i], rs[i].connection, e.resp);
    PrefixEvents(lib, decompress, rs, i, j);
  }
}
