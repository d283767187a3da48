/** The record session of client/src/session.rs and the adapter's encoders of
firmware/lib/host/src/link/record.rs: length-prefixed records over an ordered byte
pipe whose transfer boundaries carry no meaning. */
module LinkSession {
  import opened Basics
  import opened Words

  const REC_BOOTLOADER_ACK: Byte := 0x48
  const REC_RAILS_ACK: Byte := 0x68
  const REC_WIRE_DONE: Byte := 0x69
  const REC_EDGES: Byte := 0x6C
  const REC_CAPTURE_ACK: Byte := 0x6D
  const REC_INFO: Byte := 0x80
  const REC_STATUS: Byte := 0x81
  const REC_TERMINAL: Byte := 0x82
  const REC_REJECTED: Byte := 0x83
  const REC_UNKNOWN: Byte := 0x84

  const OUTCOME_SENT: Byte := 0
  const OUTCOME_COMPLETE: Byte := 1
  const OUTCOME_TIMEOUT: Byte := 2

  const LINK_VERSION: Byte := 1
  const SEQ_NONE: U16 := 0xFFFF
  const MAX_BODY: nat := 0xFFFF

  datatype Outcome = Sent | Complete | Timeout(slot: Byte)

  datatype Record =
    | Info(version: Byte, ticksPerUs: U32)
    | Status(seqNo: U16, slot: Byte, id: Byte, inst: Byte, payload: seq<Byte>)
    | Terminal(seqNo: U16, outcome: Outcome, tick: U32, statuses: Byte, garble: U16, trailing: bool)
    | Rejected(seqNo: U16, reason: Byte)
    | BootloaderAck
    | RailsAck(state: Byte)
    | WireDone(seqNo: U16, tick: U32)
    | Edges(overflow: bool, now: U32, falls: seq<U16>, rises: seq<U16>)
    | CaptureAck
    | Unknown(rtype: Byte)

  datatype Result<+T> = Ok(value: T) | Malformed

  // ---------------------------------------------------------------------
  // Record bodies
  // ---------------------------------------------------------------------

  function Ticks(s: seq<Byte>, n: nat): (t: seq<U16>)
    requires |s| == 2 * n
    ensures |t| == n
  {
    if n == 0 then [] else [Word16(s[..2])] + Ticks(s[2..], n - 1)
  }

  function TickBytes(t: seq<U16>): (s: seq<Byte>)
    ensures |s| == 2 * |t|
  {
    if t == [] then [] else Bytes16(t[0]) + TickBytes(t[1..])
  }

  /** Read the outcome byte and the slot byte of a TERMINAL. */
  function DecodeOutcome(code: Byte, slot: Byte): Result<Outcome> {
    if code == OUTCOME_SENT then Ok(Sent)
    else if code == OUTCOME_COMPLETE then Ok(Complete)
    else if code == OUTCOME_TIMEOUT then Ok(Timeout(slot))
    else Malformed
  }

  function DecodeTerminal(body: seq<Byte>): Result<Record> {
    if |body| < 13 then Malformed
    else
      match DecodeOutcome(body[3], body[4])
      case Malformed => Malformed
      case Ok(outcome) =>
        Ok(Terminal(Word16(body[1..3]), outcome, Word32(body[5..9]), body[9], Word16(body[10..12]), body[12] % 2 == 1))
  }

  function DecodeEdges(body: seq<Byte>): Result<Record> {
    if |body| < 8 then Malformed
    else
      var falls: int := body[6];
      var rises: int := body[7];
      if |body| < 8 + 2 * (falls + rises) then Malformed
      else
        var ticks := body[8..8 + 2 * (falls + rises)];
        Ok(Edges(body[1] % 2 == 1, Word32(body[2..6]),
                 Ticks(ticks[..2 * falls], falls), Ticks(ticks[2 * falls..], rises)))
  }

  /** `decode`: every index is behind a length test, so the only demand is `body[0]`. */
  function Decode(body: seq<Byte>): Result<Record>
    requires body != []
  {
    var n, tag := |body|, body[0];
    if tag == REC_INFO then
      if n < 6 then Malformed else Ok(Info(body[1], Word32(body[2..6])))
    else if tag == REC_STATUS then
      if n < 6 then Malformed else Ok(Status(Word16(body[1..3]), body[3], body[4], body[5], body[6..]))
    else if tag == REC_TERMINAL then
      DecodeTerminal(body)
    else if tag == REC_REJECTED then
      if n < 4 then Malformed else Ok(Rejected(Word16(body[1..3]), body[3]))
    else if tag == REC_BOOTLOADER_ACK then
      Ok(BootloaderAck)
    else if tag == REC_RAILS_ACK then
      if n < 2 then Malformed else Ok(RailsAck(body[1]))
    else if tag == REC_WIRE_DONE then
      if n < 7 then Malformed else Ok(WireDone(Word16(body[1..3]), Word32(body[3..7])))
    else if tag == REC_EDGES then
      DecodeEdges(body)
    else if tag == REC_CAPTURE_ACK then
      Ok(CaptureAck)
    else if tag == REC_UNKNOWN then
      if n < 2 then Malformed else Ok(Unknown(body[1]))
    else
      Malformed
  }

  function Flag(b: bool): Byte { if b then 1 else 0 }

  function OutcomeBytes(o: Outcome): seq<Byte> {
    match o
    case Sent => [OUTCOME_SENT, 0]
    case Complete => [OUTCOME_COMPLETE, 0]
    case Timeout(slot) => [OUTCOME_TIMEOUT, slot]
  }

  /** The adapter's encoders.  INFO always advertises this build's version, and EDGES
      keeps one byte of each ring's count. */
  function Body(r: Record): (body: seq<Byte>)
    ensures body != []
  {
    match r
    case Info(_, ticks) => [REC_INFO, LINK_VERSION] + Bytes32(ticks)
    case Status(s, slot, id, inst, payload) => [REC_STATUS] + Bytes16(s) + [slot, id, inst] + payload
    case Terminal(s, outcome, tick, statuses, garble, trailing) =>
      [REC_TERMINAL] + Bytes16(s) + OutcomeBytes(outcome) + Bytes32(tick) + [statuses] + Bytes16(garble)
      + [Flag(trailing)]
    case Rejected(s, reason) => [REC_REJECTED] + Bytes16(s) + [reason]
    case BootloaderAck => [REC_BOOTLOADER_ACK]
    case RailsAck(state) => [REC_RAILS_ACK, state]
    case WireDone(s, tick) => [REC_WIRE_DONE] + Bytes16(s) + Bytes32(tick)
    case Edges(overflow, now, falls, rises) =>
      [REC_EDGES, Flag(overflow)] + Bytes32(now) + [|falls| % 256, |rises| % 256] + TickBytes(falls + rises)
    case CaptureAck => [REC_CAPTURE_ACK]
    case Unknown(rtype) => [REC_UNKNOWN, rtype]
  }

  lemma {:induction false} TickBytesJoin(a: seq<U16>, b: seq<U16>)
    ensures TickBytes(a + b) == TickBytes(a) + TickBytes(b)
  {
    if a == [] {
      assert a + b == b;
    } else {
      assert a + b == [a[0]] + (a[1..] + b);
      TickBytesJoin(a[1..], b);
    }
  }

  lemma {:induction false} TicksInvert(t: seq<U16>)
    ensures Ticks(TickBytes(t), |t|) == t
  {
    if t != [] {
      TicksInvert(t[1..]);
      assert TickBytes(t)[..2] == Bytes16(t[0]) && TickBytes(t)[2..] == TickBytes(t[1..]);
      assert t == [t[0]] + t[1..];
    }
  }

  /** The records the encoders can say. */
  predicate Representable(r: Record) {
    && (r.Info? ==> r.version == LINK_VERSION)
    && (r.Edges? ==> |r.falls| < 256 && |r.rises| < 256)
  }

  lemma TerminalInverts(r: Record)
    requires r.Terminal?
    ensures Decode(Body(r)) == Ok(r)
  {
    var body := Body(r);
    assert body[1..3] == Bytes16(r.seqNo) && body[5..9] == Bytes32(r.tick) && body[10..12] == Bytes16(r.garble);
    assert body[3..5] == OutcomeBytes(r.outcome);
    assert body[3] == body[3..5][0] && body[4] == body[3..5][1];
  }

  lemma EdgesLayout(r: Record)
    requires r.Edges? && Representable(r)
    ensures var body, n := Body(r), |r.falls| + |r.rises|;
      && |body| == 8 + 2 * n && body[0] == REC_EDGES && body[1] == Flag(r.overflow) && body[2..6] == Bytes32(r.now)
      && body[6] == |r.falls| && body[7] == |r.rises| && body[8..8 + 2 * n] == TickBytes(r.falls + r.rises)
  {
    var head := [REC_EDGES, Flag(r.overflow)] + Bytes32(r.now) + [|r.falls|, |r.rises|];
    assert Body(r) == head + TickBytes(r.falls + r.rises);
    assert head[2..6] == Bytes32(r.now);
  }

  lemma EdgesInvert(r: Record)
    requires r.Edges? && Representable(r)
    ensures Decode(Body(r)) == Ok(r)
  {
    EdgesLayout(r);
    TicksSplit(r.falls, r.rises);
    var body := Body(r);
    assert Decode(body) == DecodeEdges(body);
  }

  lemma LongEdgesLost(body: seq<Byte>, r: Record)
    requires body != [] && r.Edges? && !Representable(r)
    ensures Decode(body) != Ok(r)
  {
  }

  lemma TicksSplit(a: seq<U16>, b: seq<U16>)
    ensures var s := TickBytes(a + b);
      Ticks(s[..2 * |a|], |a|) == a && Ticks(s[2 * |a|..], |b|) == b
  {
    TickBytesJoin(a, b);
    var s := TickBytes(a + b);
    assert s[..2 * |a|] == TickBytes(a) && s[2 * |a|..] == TickBytes(b);
    TicksInvert(a);
    TicksInvert(b);
  }

  /** The client reads back every record the adapter can say, and no other. */
  lemma DecodeInverts(r: Record)
    ensures Decode(Body(r)) == Ok(r) <==> Representable(r)
  {
    var body := Body(r);
    match r
    case Info(_, ticks) => assert body[2..6] == Bytes32(ticks);
    case Status(s, _, _, _, payload) => assert body[1..3] == Bytes16(s) && body[6..] == payload;
    case Terminal(_, _, _, _, _, _) => TerminalInverts(r);
    case Rejected(s, _) => assert body[1..3] == Bytes16(s);
    case WireDone(s, tick) => assert body[1..3] == Bytes16(s) && body[3..7] == Bytes32(tick);
    case Edges(_, _, _, _) => if Representable(r) { EdgesInvert(r); } else { LongEdgesLost(body, r); }
    case _ =>
  }

  /** The record type byte of each kind. */
  function TypeByte(r: Record): Byte {
    match r
    case BootloaderAck => 0x48
    case RailsAck(_) => 0x68
    case WireDone(_, _) => 0x69
    case Edges(_, _, _, _) => 0x6C
    case CaptureAck => 0x6D
    case Info(_, _) => 0x80
    case Status(_, _, _, _, _) => 0x81
    case Terminal(_, _, _, _, _, _) => 0x82
    case Rejected(_, _) => 0x83
    case Unknown(_) => 0x84
  }

  /** A known type, and what a body of that type must hold. */
  predicate WellFormed(body: seq<Byte>)
    requires body != []
  {
    var tag, n: int := body[0], |body|;
    || (tag in {0x80, 0x81} && n >= 6)
    || (tag == 0x82 && n >= 13 && body[3] <= 2)
    || (tag == 0x83 && n >= 4)
    || (tag in {0x68, 0x84} && n >= 2)
    || (tag == 0x69 && n >= 7)
    || (tag == 0x6C && n >= 8 && (var falls: int, rises: int := body[6], body[7]; n >= 8 + 2 * (falls + rises)))
    || tag in {0x48, 0x6D}
  }

  /** A body is accepted exactly when it is of a known type, long enough for it and names a
      known outcome, and it is read as the kind its type byte says; the adapter's encoders
      set that byte. */
  lemma DecodeAccepts(body: seq<Byte>, r: Record)
    requires body != []
    ensures Decode(body).Ok? <==> WellFormed(body)
    ensures Decode(body) == Ok(r) ==> TypeByte(r) == body[0]
    ensures Decode(body) == Ok(r) && r.Terminal? ==>
      r.outcome == if body[3] == 0 then Sent else if body[3] == 1 then Complete else Timeout(body[4])
    ensures Body(r)[0] == TypeByte(r) && (r.Info? ==> Body(r)[1] == 1)
  {
    if body[0] == 0x6C && |body| >= 8 {
      assert DecodeEdges(body).Ok? <==> WellFormed(body);
    }
  }

  // ---------------------------------------------------------------------
  // Framing
  // ---------------------------------------------------------------------

  /** The length prefix keeps the low 16 bits of the body's length. */
  function Frame(body: seq<Byte>): seq<Byte> { LeBytes(|body|, 2) + body }

  datatype Cut = Short | Zero | Cut(body: seq<Byte>, rest: seq<Byte>)

  /** The first complete body of a stream. */
  function Unframe(rx: seq<Byte>): (c: Cut)
    ensures c.Cut? ==> 1 <= |c.body| <= MAX_BODY && |rx| == 2 + |c.body| + |c.rest|
  {
    if |rx| < 2 then Short
    else
      var len := Word16(rx[..2]);
      if len == 0 then Zero
      else if |rx| < 2 + len then Short
      else Cut(rx[2..2 + len], rx[2 + len..])
  }

  lemma LengthPrefix(n: nat)
    ensures n <= MAX_BODY ==> Word16(LeBytes(n, 2)) == n
  {
    if n <= MAX_BODY {
      LeInverts(n, 2);
    }
  }

  /** A framed body comes back whole exactly when it has 1 to 65535 bytes. */
  lemma UnframeInverts(body: seq<Byte>, rest: seq<Byte>)
    ensures Unframe(Frame(body) + rest) == Cut(body, rest) <==> 1 <= |body| <= MAX_BODY
  {
    var rx := Frame(body) + rest;
    LengthPrefix(|body|);
    assert rx[..2] == LeBytes(|body|, 2);
    if 1 <= |body| <= MAX_BODY {
      assert rx[2..2 + |body|] == body && rx[2 + |body|..] == rest;
    }
  }

  function Frames(bodies: seq<seq<Byte>>): seq<Byte> {
    if bodies == [] then [] else Frame(bodies[0]) + Frames(bodies[1..])
  }

  /** All bodies of a stream and what is left of it. */
  function Unframed(rx: seq<Byte>): (seq<seq<Byte>>, seq<Byte>)
    decreases |rx|
  {
    match Unframe(rx)
    case Cut(body, rest) => var (bodies, left) := Unframed(rest); ([body] + bodies, left)
    case _ => ([], rx)
  }

  lemma {:induction false} FramesInvert(bodies: seq<seq<Byte>>)
    ensures Unframed(Frames(bodies)) == (bodies, [])
       <==> forall i :: 0 <= i < |bodies| ==> 1 <= |bodies[i]| <= MAX_BODY
  {
    if bodies != [] {
      var head, tail := bodies[0], bodies[1..];
      UnframeInverts(head, Frames(tail));
      FramesInvert(tail);
      assert bodies == [head] + tail;
      var u := Unframed(Frames(bodies));
      if 1 <= |head| <= MAX_BODY {
        var t := Unframed(Frames(tail));
        assert u == ([head] + t.0, t.1);
        assert u.0 == bodies ==> u.0[1..] == t.0 && bodies[1..] == tail;
      } else if u.0 != [] {
        assert 1 <= |u.0[0]| <= MAX_BODY;
      }
    }
  }

  // ---------------------------------------------------------------------
  // The receiver
  // ---------------------------------------------------------------------

  datatype Poll = Pending | Bad | Got(record: Record, rest: seq<Byte>)

  /** `next_record` on a buffer. */
  function Next(rx: seq<Byte>): (p: Poll)
    ensures p.Got? ==> |p.rest| < |rx|
  {
    match Unframe(rx)
    case Short => Pending
    case Zero => Bad
    case Cut(body, rest) =>
      match Decode(body)
      case Malformed => Bad
      case Ok(r) => Got(r, rest)
  }

  datatype Parsed = Parsed(records: seq<Record>, rest: seq<Byte>)

  /** A stream parsed whole: its records, up to the first incomplete or malformed one. */
  function Parse(rx: seq<Byte>): Parsed
    decreases |rx|
  {
    match Next(rx)
    case Got(r, rest) => var p := Parse(rest); Parsed([r] + p.records, p.rest)
    case _ => Parsed([], rx)
  }

  lemma ParseCons(rx: seq<Byte>)
    requires Next(rx).Got?
    ensures var p := Parse(Next(rx).rest);
      Parse(rx) == Parsed([Next(rx).record] + p.records, p.rest)
  {
  }

  /** What has arrived decides; later bytes only queue up behind it. */
  lemma NextExtends(rx: seq<Byte>, more: seq<Byte>)
    ensures Next(rx).Got? ==> Next(rx + more) == Got(Next(rx).record, Next(rx).rest + more)
    ensures Next(rx).Bad? ==> Next(rx + more).Bad?
  {
    if |rx| >= 2 {
      assert (rx + more)[..2] == rx[..2];
      var len := Word16(rx[..2]);
      if 2 + len <= |rx| {
        assert (rx + more)[2..2 + len] == rx[2..2 + len];
        assert (rx + more)[2 + len..] == rx[2 + len..] + more;
      }
    }
  }

  /** Bytes arrive and records are asked for in any order. */
  datatype Event = Feed(chunk: seq<Byte>) | Take
  datatype Answer = Ready(record: Record) | NotYet | Broken

  function AnswerOf(p: Poll): Answer {
    match p
    case Got(r, _) => Ready(r)
    case Pending => NotYet
    case Bad => Broken
  }

  function AfterPoll(rx: seq<Byte>): seq<Byte> { if Next(rx).Got? then Next(rx).rest else rx }

  function Serve(rx: seq<Byte>, events: seq<Event>): (seq<Answer>, seq<Byte>)
    decreases |events|
  {
    if events == [] then ([], rx)
    else if events[0].Feed? then Serve(rx + events[0].chunk, events[1..])
    else
      var (answers, left) := Serve(AfterPoll(rx), events[1..]);
      ([AnswerOf(Next(rx))] + answers, left)
  }

  function Fed(events: seq<Event>): seq<Byte> {
    if events == [] then []
    else if events[0].Feed? then events[0].chunk + Fed(events[1..])
    else Fed(events[1..])
  }

  function Records(answers: seq<Answer>): seq<Record> {
    if answers == [] then []
    else if answers[0].Ready? then [answers[0].record] + Records(answers[1..])
    else Records(answers[1..])
  }

  /** Chunking invariance.  However the bytes are cut and however often records are
      asked for, the records handed out, followed by those still in the buffer, are
      the records of the whole stream, and the same suffix is left over. */
  lemma {:induction false} ServeIsParse(rx: seq<Byte>, events: seq<Event>)
    ensures var (answers, left) := Serve(rx, events); var p := Parse(left);
      Parse(rx + Fed(events)) == Parsed(Records(answers) + p.records, p.rest)
    decreases |events|
  {
    if events == [] {
      assert rx + [] == rx;
    } else if events[0].Feed? {
      assert rx + Fed(events) == (rx + events[0].chunk) + Fed(events[1..]);
      ServeIsParse(rx + events[0].chunk, events[1..]);
    } else {
      var (answers, left) := Serve(AfterPoll(rx), events[1..]);
      ServeIsParse(AfterPoll(rx), events[1..]);
      NextExtends(rx, Fed(events));
      assert ([AnswerOf(Next(rx))] + answers)[1..] == answers;
      if Next(rx).Got? {
        AppendAssoc([Next(rx).record], Records(answers), Parse(left).records);
      }
    }
  }

  /** A malformed record is never skipped: every later request breaks the same way
      and no byte is lost. */
  lemma {:induction false} BrokenForever(rx: seq<Byte>, events: seq<Event>)
    requires Next(rx).Bad?
    ensures var (answers, left) := Serve(rx, events);
      left == rx + Fed(events) && forall i :: 0 <= i < |answers| ==> answers[i] == Broken
    decreases |events|
  {
    if events == [] {
      assert rx + [] == rx;
    } else if events[0].Feed? {
      NextExtends(rx, events[0].chunk);
      assert rx + Fed(events) == (rx + events[0].chunk) + Fed(events[1..]);
      BrokenForever(rx + events[0].chunk, events[1..]);
    } else {
      BrokenForever(rx, events[1..]);
    }
  }

  // ---------------------------------------------------------------------
  // Adapter to client
  // ---------------------------------------------------------------------

  function Emitted(records: seq<Record>): seq<Byte> {
    if records == [] then [] else Frame(Body(records[0])) + Emitted(records[1..])
  }

  /** A record the encoders can say, in a body its length prefix can count. */
  predicate Carriable(r: Record) {
    Representable(r) && (r.Status? ==> 6 + |r.payload| <= MAX_BODY)
  }

  /** Decoding never invents: a body of b bytes holds no more than b bytes of record. */
  lemma DecodedFits(body: seq<Byte>, r: Record)
    requires 1 <= |body| <= MAX_BODY && Decode(body) == Ok(r)
    ensures |Body(r)| <= MAX_BODY
  {
    assert r.Status? ==> |r.payload| == |body| - 6;
    assert r.Edges? ==> |r.falls| < 256 && |r.rises| < 256;
  }

  lemma NextInverts(r: Record, rest: seq<Byte>)
    ensures var p := Next(Frame(Body(r)) + rest);
      if Carriable(r) then p == Got(r, rest) else p.Got? ==> p.record != r
  {
    UnframeInverts(Body(r), rest);
    DecodeInverts(r);
    var c := Unframe(Frame(Body(r)) + rest);
    if |Body(r)| > MAX_BODY && c.Cut? && Decode(c.body) == Ok(r) {
      DecodedFits(c.body, r);
    }
  }

  /** Encoded, sent, received: exactly the carriable record lists survive. */
  lemma {:induction false} StreamRoundTrip(records: seq<Record>)
    ensures Parse(Emitted(records)) == Parsed(records, [])
       <==> forall i :: 0 <= i < |records| ==> Carriable(records[i])
  {
    if records != [] {
      var head, tail := records[0], records[1..];
      NextInverts(head, Emitted(tail));
      StreamRoundTrip(tail);
      assert records == [head] + tail;
      var rx := Emitted(records);
      var p, q := Parse(rx), Parse(Emitted(tail));
      assert rx == Frame(Body(head)) + Emitted(tail);
      if Next(rx).Got? {
        ParseCons(rx);
        assert p.records == records ==> p.records[0] == head && p.records[1..] == tail;
      }
    }
  }

  /** Under any chunking and any polling, a session polled dry has handed out exactly
      the records the adapter sent. */
  lemma LinkDelivers(records: seq<Record>, events: seq<Event>)
    requires forall i :: 0 <= i < |records| ==> Carriable(records[i])
    requires Fed(events) == Emitted(records) && Next(Serve([], events).1).Pending?
    ensures Records(Serve([], events).0) == records && Serve([], events).1 == []
  {
    var (answers, left) := Serve([], events);
    ServeIsParse([], events);
    assert [] + Fed(events) == Fed(events);
    StreamRoundTrip(records);
    assert Parse(left) == Parsed([], left);
    assert Records(answers) + [] == Records(answers);
  }

  // ---------------------------------------------------------------------
  // The session object
  // ---------------------------------------------------------------------

  function Concat(chunks: seq<seq<Byte>>): seq<Byte> {
    if chunks == [] then [] else chunks[0] + Concat(chunks[1..])
  }

  class Session {
    var rx: seq<Byte>
    var nextSeq: U16

    ghost predicate Valid() reads this { nextSeq != SEQ_NONE }

    constructor ()
      ensures Valid() && rx == [] && nextSeq == 0
    {
      rx, nextSeq := [], 0;
    }

    method AllocSeq() returns (issued: U16)
      requires Valid()
      modifies this`nextSeq
      ensures Valid() && issued == old(nextSeq) != SEQ_NONE && nextSeq == SeqAfter(old(nextSeq))
    {
      issued := nextSeq;
      nextSeq := (nextSeq + 1) % 0x1_0000;
      if nextSeq == SEQ_NONE {
        nextSeq := 0;
      }
    }

    method OnBytes(chunk: seq<Byte>)
      modifies this`rx
      ensures rx == old(rx) + chunk
    {
      rx := rx + chunk;
    }

    method NextRecord() returns (answer: Answer)
      modifies this`rx
      ensures answer == AnswerOf(Next(old(rx))) && rx == AfterPoll(old(rx))
    {
      if |rx| < 2 {
        return NotYet;
      }
      var len: int := Word16(rx[..2]);
      if len == 0 {
        return Broken;
      }
      if |rx| < 2 + len {
        return NotYet;
      }
      var record := Decode(rx[2..2 + len]);
      if record.Malformed? {
        return Broken;
      }
      rx := rx[2 + len..];
      return Ready(record.value);
    }
  }

  /** The client's `next_record`: poll, and fetch one more chunk while nothing is
      complete.  The answer is the first record of everything ever received, however
      it was cut, and nothing behind that record is consumed. */
  method AwaitRecord(session: Session, pipe: seq<seq<Byte>>) returns (answer: Answer, left: seq<seq<Byte>>)
    modifies session`rx
    ensures var stream := old(session.rx) + Concat(pipe);
      && answer == AnswerOf(Next(stream))
      && session.rx + Concat(left) == AfterPoll(stream)
      && (answer.NotYet? ==> left == [])
  {
    left := pipe;
    ghost var stream := session.rx + Concat(pipe);
    while true
      invariant session.rx + Concat(left) == stream
      decreases |left|
    {
      NextExtends(session.rx, Concat(left));
      answer := session.NextRecord();
      if !answer.NotYet? {
        return;
      }
      if left == [] {
        assert session.rx == stream;
        return;
      }
      session.OnBytes(left[0]);
      left := left[1..];
    }
  }

  // ---------------------------------------------------------------------
  // Sequence numbers
  // ---------------------------------------------------------------------

  function SeqAfter(s: U16): U16 { if s >= SEQ_NONE - 1 then 0 else s + 1 }

  /** The next n sequence numbers. */
  function Issued(next: U16, n: nat): (s: seq<U16>)
    ensures |s| == n
    decreases n
  {
    if n == 0 then [] else [next] + Issued(SeqAfter(next), n - 1)
  }

  lemma {:induction false} IssuedCycles(next: U16, n: nat, i: nat)
    requires next < SEQ_NONE && i < n
    ensures Issued(next, n)[i] == (next + i) % SEQ_NONE
    decreases n
  {
    if i == 0 {
      assert next % SEQ_NONE == next;
    } else {
      IssuedCycles(SeqAfter(next), n - 1, i - 1);
      if next == SEQ_NONE - 1 {
        assert (SEQ_NONE + (i - 1)) % SEQ_NONE == (i - 1) % SEQ_NONE;
      }
    }
  }

  /** A number never marks "no command", and comes back only after all the others. */
  lemma SeqNeverAmbiguous(n: nat, i: nat, j: nat)
    requires i < j < n
    ensures Issued(0, n)[i] != 65535
    ensures Issued(0, n)[i] == Issued(0, n)[j] <==> (j - i) % 65535 == 0
  {
    IssuedCycles(0, n, i);
    IssuedCycles(0, n, j);
    SameResidue(i, j, SEQ_NONE);
  }

  lemma SameResidue(i: nat, j: nat, m: nat)
    requires i <= j && 0 < m
    ensures i % m == j % m <==> (j - i) % m == 0
  {
    var d := j / m - i / m;
    var r := j % m - i % m;
    assert j - i == d * m + r;
    if r >= 0 {
      ModUnique(j - i, m, d, r);
    } else {
      assert (d - 1) * m == d * m - m;
      ModUnique(j - i, m, d - 1, r + m);
    }
  }
}
