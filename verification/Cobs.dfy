/** The framed RPC transport of firmware-old/open-servo-services/src/rpc_transport.rs:
Consistent Overhead Byte Stuffing (Cheshire and Baker) with a zero delimiter. */
module Cobs {
  import opened Basics

  const MAX_MSG_SIZE: nat := 128
  const COBS_BUF_SIZE: nat := 130

  // ---------------------------------------------------------------------
  // The code
  // ---------------------------------------------------------------------

  /** The rest of a frame's body when `group` is the open run of non-zero bytes. */
  function BodyFrom(group: seq<Byte>, data: seq<Byte>): (body: seq<Byte>)
    requires |group| < 254
    ensures body != []
    decreases |data|
  {
    if data == [] then [|group| + 1] + group
    else if data[0] == 0 then [|group| + 1] + group + BodyFrom([], data[1..])
    else if |group| == 253 then [255] + (group + [data[0]]) + BodyFrom([], data[1..])
    else BodyFrom(group + [data[0]], data[1..])
  }

  /** A whole frame, delimiter included. */
  function Encode(data: seq<Byte>): seq<Byte> {
    BodyFrom([], data) + [0]
  }

  /** The decoder: `None` where the source answers 0 for a bad frame. */
  function DecodeFrom(frame: seq<Byte>, out: seq<Byte>, cap: nat): (r: Option<seq<Byte>>)
    ensures r.Some? && |out| <= cap ==> |out| <= |r.value| <= cap
    decreases |frame|
  {
    if frame == [] then Some(out)
    else
      var code := frame[0];
      if code == 0 || |frame| < code || |out| + code - 1 > cap then None
      else
        var out' := out + frame[1..code];
        var rest := frame[code..];
        if code < 255 && rest != [] then
          if |out'| >= cap then None else DecodeFrom(rest, out' + [0], cap)
        else DecodeFrom(rest, out', cap)
  }

  function Decode(frame: seq<Byte>, cap: nat): Option<seq<Byte>> {
    DecodeFrom(frame, [], cap)
  }

  ghost predicate NoZero(s: seq<Byte>) {
    forall i :: 0 <= i < |s| ==> s[i] != 0
  }

  /** Runs of 254 non-zero bytes that the encoder closes, each costing a byte. */
  function FullGroups(open: nat, data: seq<Byte>): nat
    requires open < 254
    decreases |data|
  {
    if data == [] then 0
    else if data[0] == 0 then FullGroups(0, data[1..])
    else if open == 253 then 1 + FullGroups(0, data[1..])
    else FullGroups(open + 1, data[1..])
  }

  lemma {:induction false} BodyLength(group: seq<Byte>, data: seq<Byte>)
    requires |group| < 254
    ensures |BodyFrom(group, data)| == |group| + |data| + 1 + FullGroups(|group|, data)
    ensures 254 * FullGroups(|group|, data) <= |group| + |data|
    decreases |data|
  {
    if data != [] {
      BodyLength(if data[0] == 0 || |group| == 253 then [] else group + [data[0]], data[1..]);
    }
  }

  lemma {:induction false} BodyHasNoZero(group: seq<Byte>, data: seq<Byte>)
    requires |group| < 254 && NoZero(group)
    ensures NoZero(BodyFrom(group, data))
    decreases |data|
  {
    if data != [] {
      BodyHasNoZero(if data[0] == 0 || |group| == 253 then [] else group + [data[0]], data[1..]);
    }
  }

  /** A frame has no zero before its delimiter and its overhead is bounded; it fits
      the transmit buffer exactly up to MAX_MSG_SIZE bytes of message. */
  lemma EncodeFits(data: seq<Byte>)
    ensures |Encode(data)| <= |data| + |data| / 254 + 2
    ensures |Encode(data)| <= COBS_BUF_SIZE <==> |data| <= MAX_MSG_SIZE
    ensures NoZero(BodyFrom([], data))
  {
    BodyLength([], data);
    BodyHasNoZero([], data);
  }

  /** Decoding one closed group. */
  lemma DecodeGroup(code: Byte, group: seq<Byte>, rest: seq<Byte>, out: seq<Byte>, cap: nat)
    requires code == |group| + 1 && |out| + |group| <= cap
    ensures DecodeFrom([code] + group + rest, out, cap)
      == if code < 255 && rest != [] then
           (if |out + group| >= cap then None else DecodeFrom(rest, out + group + [0], cap))
         else DecodeFrom(rest, out + group, cap)
  {
    var frame := [code] + group + rest;
    assert frame[1..code] == group && frame[code..] == rest;
  }

  /** Decoding inverts encoding, for messages of every length. */
  lemma {:induction false} DecodeInverts(group: seq<Byte>, data: seq<Byte>, out: seq<Byte>, cap: nat)
    requires |group| < 254 && NoZero(group) && |out| + |group| + |data| <= cap
    ensures DecodeFrom(BodyFrom(group, data), out, cap) == Some(out + group + data)
    decreases |data|
  {
    if data == [] {
      assert [|group| + 1] + group + [] == BodyFrom(group, data);
      DecodeGroup(|group| + 1, group, [], out, cap);
      assert out + group + data == out + group;
    } else {
      var b, tail := data[0], data[1..];
      Regroup(out, group, data);
      if b == 0 {
        DecodeGroup(|group| + 1, group, BodyFrom([], tail), out, cap);
        DecodeInverts([], tail, out + group + [0], cap);
      } else if |group| == 253 {
        DecodeGroup(255, group + [b], BodyFrom([], tail), out, cap);
        DecodeInverts([], tail, out + (group + [b]), cap);
      } else {
        DecodeInverts(group + [b], tail, out, cap);
      }
    }
  }

  lemma Regroup(out: seq<Byte>, group: seq<Byte>, data: seq<Byte>)
    requires data != []
    ensures var b, tail := data[0], data[1..];
      && out + group + data == out + group + [b] + [] + tail
      && out + group + data == out + (group + [b]) + [] + tail
      && out + group + data == out + (group + [b]) + tail
  {
    assert data == [data[0]] + data[1..];
  }

  /** A message survives exactly when the receiver's output buffer can hold it. */
  lemma RoundTrip(data: seq<Byte>, cap: nat)
    ensures Decode(BodyFrom([], data), cap) == Some(data) <==> |data| <= cap
  {
    if |data| <= cap {
      DecodeInverts([], data, [], cap);
      assert [] + [] + data == data;
    }
  }

  // ---------------------------------------------------------------------
  // Which frames are accepted
  // ---------------------------------------------------------------------

  /** The non-zero bytes since the last zero or full group, when `open` came before. */
  function OpenRun(open: nat, data: seq<Byte>): nat
    requires open < 254
    decreases |data|
  {
    if data == [] then open
    else OpenRun(if data[0] == 0 || open == 253 then 0 else open + 1, data[1..])
  }

  /** The data ends with a full group, which the encoder follows with an empty one. */
  predicate EndsFull(data: seq<Byte>) {
    data != [] && data[|data| - 1] != 0 && OpenRun(0, data) == 0
  }

  lemma {:induction false} RunOpens(open: seq<Byte>, group: seq<Byte>, data: seq<Byte>)
    requires NoZero(group) && |open| + |group| < 254
    ensures BodyFrom(open, group + data) == BodyFrom(open + group, data)
    ensures OpenRun(|open|, group + data) == OpenRun(|open| + |group|, data)
    decreases |group|
  {
    if group == [] {
      assert group + data == data && open + group == open;
    } else {
      assert (group + data)[0] == group[0] && (group + data)[1..] == group[1..] + data;
      RunOpens(open + [group[0]], group[1..], data);
      assert open + [group[0]] + group[1..] == open + group;
    }
  }

  /** One group of a frame is one group of what it decodes to. */
  lemma GroupEncodes(code: Byte, group: seq<Byte>, data: seq<Byte>)
    requires NoZero(group) && code == |group| + 1
    ensures code < 255 ==> BodyFrom([], group) == [code] + group
    ensures code < 255 ==> BodyFrom([], group + [0] + data) == [code] + group + BodyFrom([], data)
    ensures code == 255 ==> BodyFrom([], group + data) == [code] + group + BodyFrom([], data)
    ensures code == 255 ==> OpenRun(0, group + data) == OpenRun(0, data)
    ensures code < 255 ==> OpenRun(0, group + [0] + data) == OpenRun(0, data)
  {
    if code < 255 {
      RunOpens([], group, []);
      assert group + [] == group && [] + group == group;
      RunOpens([], group, [0] + data);
      assert group + ([0] + data) == group + [0] + data && ([0] + data)[1..] == data;
    } else {
      var head, b := group[..253], group[253];
      RunOpens([], head, [b] + data);
      assert head + ([b] + data) == group + data && ([b] + data)[1..] == data;
      assert [] + head == head && head + [b] == group;
    }
  }

  /** `data` is what `frame` encodes, its closing empty group perhaps left off. */
  ghost predicate Encodes(frame: seq<Byte>, data: seq<Byte>) {
    frame == BodyFrom([], data) || (EndsFull(data) && frame + [1] == BodyFrom([], data))
  }

  lemma FrameSplits(frame: seq<Byte>) returns (group: seq<Byte>, rest: seq<Byte>)
    requires NoZero(frame) && frame != [] && frame[0] <= |frame|
    ensures frame == [frame[0]] + group + rest && frame[0] == |group| + 1
    ensures NoZero(group) && NoZero(rest) && |rest| < |frame|
  {
    group, rest := frame[1..frame[0]], frame[frame[0]..];
  }

  lemma EncodesLast(code: Byte, group: seq<Byte>, frame: seq<Byte>)
    requires NoZero(group) && code == |group| + 1 && frame == [code] + group + []
    ensures Encodes(frame, group)
  {
    GroupEncodes(code, group, []);
    assert group + [] == group && BodyFrom([], []) == [1];
  }

  lemma EncodesGroup(code: Byte, group: seq<Byte>, rest: seq<Byte>, tail: seq<Byte>, frame: seq<Byte>, data: seq<Byte>)
    requires NoZero(group) && code == |group| + 1 && Encodes(rest, tail) && frame == [code] + group + rest
    requires data == if code < 255 then group + [0] + tail else group + tail
    ensures Encodes(frame, data)
  {
    GroupEncodes(code, group, tail);
    AppendAssoc([code] + group, rest, [1]);
    assert tail != [] ==> data[|data| - 1] == tail[|tail| - 1];
  }

  lemma {:induction false} DecodedIsEncoded(frame: seq<Byte>, out: seq<Byte>, cap: nat) returns (data: seq<Byte>)
    requires NoZero(frame) && frame != [] && DecodeFrom(frame, out, cap).Some?
    ensures DecodeFrom(frame, out, cap) == Some(out + data) && Encodes(frame, data)
    decreases |frame|
  {
    var code := frame[0];
    var group, rest := FrameSplits(frame);
    DecodeGroup(code, group, rest, out, cap);
    if rest == [] {
      data := group;
      EncodesLast(code, group, frame);
    } else if code < 255 {
      var tail := DecodedIsEncoded(rest, out + group + [0], cap);
      data := group + [0] + tail;
      assert out + group + [0] + tail == out + data;
      EncodesGroup(code, group, rest, tail, frame, data);
    } else {
      var tail := DecodedIsEncoded(rest, out + group, cap);
      data := group + tail;
      assert out + group + tail == out + data;
      EncodesGroup(code, group, rest, tail, frame, data);
    }
  }

  function Short(body: seq<Byte>): seq<Byte>
    requires body != []
  {
    body[..|body| - 1]
  }

  lemma ShortGroup(code: Byte, group: seq<Byte>, next: seq<Byte>, out: seq<Byte>, cap: nat)
    requires code == |group| + 1 && |out| + |group| <= cap && next != []
    requires code < 255 ==> |next| >= 2 && |out| + |group| < cap
    ensures DecodeFrom(Short([code] + group + next), out, cap)
         == DecodeFrom(Short(next), if code < 255 then out + group + [0] else out + group, cap)
  {
    assert Short([code] + group + next) == [code] + group + Short(next);
    DecodeGroup(code, group, Short(next), out, cap);
  }

  /** A frame that ends with a full group decodes without the closing empty one. */
  lemma {:induction false} DecodeShort(group: seq<Byte>, data: seq<Byte>, out: seq<Byte>, cap: nat)
    requires |group| < 254 && NoZero(group) && |out| + |group| + |data| <= cap
    requires data != [] && data[|data| - 1] != 0 && OpenRun(|group|, data) == 0
    ensures var body := BodyFrom(group, data);
      |body| >= 2 && DecodeFrom(Short(body), out, cap) == Some(out + group + data)
    decreases |data|
  {
    var b, tail := data[0], data[1..];
    Regroup(out, group, data);
    assert tail != [] ==> tail[|tail| - 1] == data[|data| - 1];
    if b == 0 {
      DecodeShort([], tail, out + group + [0], cap);
      ShortGroup(|group| + 1, group, BodyFrom([], tail), out, cap);
    } else if |group| == 253 {
      ShortGroup(255, group + [b], BodyFrom([], tail), out, cap);
      if tail == [] {
        assert Short(BodyFrom([], tail)) == [] && out + (group + [b]) == out + group + data;
      } else {
        DecodeShort([], tail, out + (group + [b]), cap);
      }
    } else {
      assert OpenRun(|group| + 1, tail) == 0;
      DecodeShort(group + [b], tail, out, cap);
    }
  }

  /** A zero-free frame decodes to a message exactly when it encodes it, with or without
      the empty group that closes a full one, and the message fits. */
  lemma DecodeExact(frame: seq<Byte>, data: seq<Byte>, cap: nat)
    requires NoZero(frame) && frame != []
    ensures Decode(frame, cap) == Some(data) <==> Encodes(frame, data) && |data| <= cap
  {
    if Decode(frame, cap) == Some(data) {
      var d := DecodedIsEncoded(frame, [], cap);
      assert [] + d == d;
    }
    if Encodes(frame, data) && |data| <= cap {
      RoundTrip(data, cap);
      if EndsFull(data) {
        DecodeShort([], data, [], cap);
        assert [] + [] + data == data;
        assert frame + [1] == BodyFrom([], data) ==> frame == Short(BodyFrom([], data));
      }
    }
  }

  /** A frame cut short never passes for the message it was cut from, except that a full
      last group may lose the empty one that closes it. */
  lemma CutFrameIsNotTheMessage(data: seq<Byte>, n: nat, cap: nat)
    requires 0 < n < |BodyFrom([], data)|
    ensures Decode(BodyFrom([], data)[..n], cap) == Some(data)
       <==> EndsFull(data) && n == |BodyFrom([], data)| - 1 && |data| <= cap
  {
    var body := BodyFrom([], data);
    BodyHasNoZero([], data);
    DecodeExact(body[..n], data, cap);
    if EndsFull(data) {
      ClosedByOne([], data);
      assert n == |body| - 1 ==> body[..n] + [1] == body;
    }
  }

  lemma {:induction false} ClosedByOne(group: seq<Byte>, data: seq<Byte>)
    requires |group| < 254 && data != [] && data[|data| - 1] != 0 && OpenRun(|group|, data) == 0
    ensures var body := BodyFrom(group, data); body[|body| - 1] == 1
    decreases |data|
  {
    var b, tail := data[0], data[1..];
    assert tail != [] ==> tail[|tail| - 1] == data[|data| - 1];
    if tail == [] {
      assert BodyFrom([], tail) == [1];
    } else {
      ClosedByOne(if b == 0 || |group| == 253 then [] else group + [b], tail);
    }
  }

  // ---------------------------------------------------------------------
  // The byte stream
  // ---------------------------------------------------------------------

  /** What a delimiter yields: empty and undecodable frames are dropped. */
  function Emit(segment: seq<Byte>, outCap: nat): seq<seq<Byte>> {
    if segment == [] then []
    else
      var m := Decode(segment, outCap);
      if m.None? || m.value == [] then [] else [m.value]
  }

  /** The messages in a byte stream, read one byte at a time: `segment` is what has
      arrived since the last delimiter, dropped when it fills the buffer. */
  function Messages(segment: seq<Byte>, bytes: seq<Byte>, cap: nat, outCap: nat): seq<seq<Byte>>
    decreases |bytes|
  {
    if bytes == [] then []
    else
      var seg := if |segment| >= cap then [] else segment;
      if bytes[0] == 0 then Emit(seg, outCap) + Messages([], bytes[1..], cap, outCap)
      else Messages(seg + [bytes[0]], bytes[1..], cap, outCap)
  }

  lemma {:induction false} MessagesSkip(segment: seq<Byte>, x: seq<Byte>, rest: seq<Byte>, cap: nat, outCap: nat)
    requires NoZero(x) && |segment| + |x| <= cap
    ensures Messages(segment, x + rest, cap, outCap) == Messages(segment + x, rest, cap, outCap)
    decreases |x|
  {
    if x == [] {
      assert x + rest == rest && segment + x == segment;
    } else {
      assert (x + rest)[1..] == x[1..] + rest && (x + rest)[0] == x[0];
      MessagesSkip(segment + [x[0]], x[1..], rest, cap, outCap);
      assert segment + [x[0]] + x[1..] == segment + x;
    }
  }

  lemma {:induction false} MessagesNone(segment: seq<Byte>, bytes: seq<Byte>, cap: nat, outCap: nat)
    requires NoZero(bytes)
    ensures Messages(segment, bytes, cap, outCap) == []
    decreases |bytes|
  {
    if bytes != [] {
      MessagesNone((if |segment| >= cap then [] else segment) + [bytes[0]], bytes[1..], cap, outCap);
    }
  }

  lemma MessagesReset(segment: seq<Byte>, bytes: seq<Byte>, cap: nat, outCap: nat)
    requires |segment| >= cap
    ensures Messages(segment, bytes, cap, outCap) == Messages([], bytes, cap, outCap)
  {
  }

  /** A frame that fits the buffer together with its delimiter is read whole. */
  lemma MessagesFrame(frame: seq<Byte>, rest: seq<Byte>, cap: nat, outCap: nat)
    requires NoZero(frame) && |frame| < cap
    ensures Messages([], frame + [0] + rest, cap, outCap) == Emit(frame, outCap) + Messages([], rest, cap, outCap)
  {
    var tail := [0] + rest;
    assert frame + [0] + rest == frame + tail;
    MessagesSkip([], frame, tail, cap, outCap);
    assert [] + frame == frame && tail[1..] == rest;
  }

  /** Resynchronisation: a delimiter ends whatever garbage came before it. */
  lemma {:induction false} MessagesResync(segment: seq<Byte>, garbage: seq<Byte>, rest: seq<Byte>,
                                          cap: nat, outCap: nat)
    ensures Messages(segment, garbage + [0] + rest, cap, outCap)
         == Messages(segment, garbage + [0], cap, outCap) + Messages([], rest, cap, outCap)
    decreases |garbage|
  {
    var seg := if |segment| >= cap then [] else segment;
    var all := garbage + [0] + rest;
    if garbage == [] {
      assert all[1..] == rest && all[0] == 0;
      assert (garbage + [0])[1..] == [];
    } else {
      var g := garbage[1..];
      assert all[1..] == g + [0] + rest && all[0] == garbage[0] == (garbage + [0])[0];
      assert (garbage + [0])[1..] == g + [0];
      if garbage[0] == 0 {
        MessagesResync([], g, rest, cap, outCap);
      } else {
        MessagesResync(seg + [garbage[0]], g, rest, cap, outCap);
      }
    }
  }

  // ---------------------------------------------------------------------
  // What is delivered
  // ---------------------------------------------------------------------

  /** What the receiver holds when a delimiter follows the non-zero bytes x. */
  function Held(segment: seq<Byte>, x: seq<Byte>, cap: nat): (held: seq<Byte>)
    ensures |held| < cap || held == []
    ensures |held| + cap <= |segment| + |x| || held == segment + x
    decreases |x|
  {
    var seg := if |segment| >= cap then [] else segment;
    if x == [] then seg else Held(seg + [x[0]], x[1..], cap)
  }

  lemma {:induction false} MessagesHeld(segment: seq<Byte>, x: seq<Byte>, cap: nat, outCap: nat)
    requires NoZero(x)
    ensures Messages(segment, x + [0], cap, outCap) == Emit(Held(segment, x, cap), outCap)
    decreases |x|
  {
    var seg := if |segment| >= cap then [] else segment;
    var all := x + [0];
    if x == [] {
      assert all == [0] && all[1..] == [];
      assert Messages([], [], cap, outCap) == [];
    } else {
      assert all[0] == x[0] && all[1..] == x[1..] + [0];
      MessagesHeld(seg + [x[0]], x[1..], cap, outCap);
    }
  }

  /** Every group carries a code byte, so a message is shorter than its frame. */
  lemma {:induction false} DecodeShrinks(frame: seq<Byte>, out: seq<Byte>, cap: nat)
    ensures var r := DecodeFrom(frame, out, cap);
      r.Some? && frame != [] ==> |r.value| < |out| + |frame|
    decreases |frame|
  {
    if frame != [] {
      var code := frame[0];
      if code != 0 && code <= |frame| && |out| + code - 1 <= cap {
        var out', rest := out + frame[1..code], frame[code..];
        DecodeShrinks(rest, if code < 255 && rest != [] then out' + [0] else out', cap);
      }
    }
  }

  lemma EmitShrinks(segment: seq<Byte>, outCap: nat)
    ensures |Emit(segment, outCap)| <= 1
    ensures Emit(segment, outCap) != [] ==> |Emit(segment, outCap)[0]| < |segment|
  {
    DecodeShrinks(segment, [], outCap);
  }

  /** A message the receiver hands over: not empty, within the output buffer, and with
      its delimiter within the receive buffer. */
  predicate Deliverable(m: seq<Byte>, cap: nat, outCap: nat) {
    m != [] && |m| <= outCap && |Encode(m)| <= cap
  }

  /** One frame gives at most one message, and gives its own exactly when that is
      deliverable. */
  lemma FrameDelivered(m: seq<Byte>, cap: nat, outCap: nat)
    ensures |Messages([], Encode(m), cap, outCap)| <= 1
    ensures Messages([], Encode(m), cap, outCap) == [m] <==> Deliverable(m, cap, outCap)
  {
    var body := BodyFrom([], m);
    var held := Held([], body, cap);
    BodyLength([], m);
    BodyHasNoZero([], m);
    MessagesHeld([], body, cap, outCap);
    EmitShrinks(held, outCap);
    if |body| < cap {
      assert held == [] + body == body;
      RoundTrip(m, outCap);
    } else {
      TailIsShort(m, cap, outCap);
    }
  }

  /** A frame that reaches the buffer's size leaves at most a tail too short to be it. */
  lemma TailIsShort(m: seq<Byte>, cap: nat, outCap: nat)
    requires |BodyFrom([], m)| >= cap
    ensures Emit(Held([], BodyFrom([], m), cap), outCap) != [m]
  {
    var held := Held([], BodyFrom([], m), cap);
    BodyLength([], m);
    EmitShrinks(held, outCap);
    var n := |BodyFrom([], m)|;
    assert |held| + cap <= n || |held| == n;
  }

  function Stream(msgs: seq<seq<Byte>>): seq<Byte> {
    if msgs == [] then [] else Encode(msgs[0]) + Stream(msgs[1..])
  }

  lemma StreamCons(msgs: seq<seq<Byte>>, cap: nat, outCap: nat)
    requires msgs != []
    ensures Messages([], Stream(msgs), cap, outCap)
         == Messages([], Encode(msgs[0]), cap, outCap) + Messages([], Stream(msgs[1..]), cap, outCap)
  {
    var body, rest := BodyFrom([], msgs[0]), Stream(msgs[1..]);
    assert Stream(msgs) == body + [0] + rest;
    MessagesResync([], body, rest, cap, outCap);
  }

  lemma {:induction false} NoMoreThanSent(msgs: seq<seq<Byte>>, cap: nat, outCap: nat)
    ensures |Messages([], Stream(msgs), cap, outCap)| <= |msgs|
  {
    if msgs != [] {
      StreamCons(msgs, cap, outCap);
      FrameDelivered(msgs[0], cap, outCap);
      NoMoreThanSent(msgs[1..], cap, outCap);
    }
  }

  /** For every pair of buffer sizes a stream of messages is read back as it was sent
      if and only if each of them is deliverable. */
  lemma {:induction false} StreamRoundTrip(msgs: seq<seq<Byte>>, cap: nat, outCap: nat)
    ensures Messages([], Stream(msgs), cap, outCap) == msgs
       <==> forall i :: 0 <= i < |msgs| ==> Deliverable(msgs[i], cap, outCap)
  {
    if msgs != [] {
      var m, tail := msgs[0], msgs[1..];
      StreamCons(msgs, cap, outCap);
      FrameDelivered(m, cap, outCap);
      NoMoreThanSent(tail, cap, outCap);
      StreamRoundTrip(tail, cap, outCap);
      SplitFirst(Messages([], Encode(m), cap, outCap), Messages([], Stream(tail), cap, outCap), msgs);
      assert (forall i :: 0 <= i < |msgs| ==> Deliverable(msgs[i], cap, outCap))
        <==> Deliverable(m, cap, outCap) && (forall i :: 0 <= i < |tail| ==> Deliverable(tail[i], cap, outCap)) by {
        assert forall i :: 0 <= i < |tail| ==> tail[i] == msgs[i + 1];
        assert forall i :: 1 <= i < |msgs| ==> msgs[i] == tail[i - 1];
      }
    }
  }

  lemma SplitFirst(x: seq<seq<Byte>>, y: seq<seq<Byte>>, msgs: seq<seq<Byte>>)
    requires msgs != [] && |x| <= 1 && |y| < |msgs|
    ensures x + y == msgs <==> x == [msgs[0]] && y == msgs[1..]
  {
    if x + y == msgs {
      assert |x| == 1 && x[0] == (x + y)[0];
      assert y == (x + y)[1..];
    }
    assert msgs == [msgs[0]] + msgs[1..];
  }

  /** The transport's own sizes: up to 128-byte messages, a 130-byte receive buffer. */
  lemma TransportRoundTrip(garbage: seq<Byte>, msgs: seq<seq<Byte>>, cap: nat, outCap: nat)
    requires cap >= COBS_BUF_SIZE && outCap >= MAX_MSG_SIZE
    requires forall i :: 0 <= i < |msgs| ==> 0 < |msgs[i]| <= MAX_MSG_SIZE
    ensures Messages([], Stream(msgs), cap, outCap) == msgs
    ensures Messages([], garbage + [0] + Stream(msgs), cap, outCap)
         == Messages([], garbage + [0], cap, outCap) + msgs
  {
    forall i | 0 <= i < |msgs| ensures Deliverable(msgs[i], cap, outCap) { EncodeFits(msgs[i]); }
    StreamRoundTrip(msgs, cap, outCap);
    MessagesResync([], garbage, Stream(msgs), cap, outCap);
  }

  /** Where the round trip fails: an empty message and a frame that just fills the
      receive buffer are dropped without trace. */
  lemma LostFrames(m: seq<Byte>, cap: nat, outCap: nat)
    ensures Messages([], Encode([]), cap, outCap) == []
    ensures |Encode(m)| == cap + 1 ==> Messages([], Encode(m), cap, outCap) == []
  {
    MessagesHeld([], [1], cap, outCap);
    assert Encode([]) == [1] + [0];
    EmitShrinks(Held([], [1], cap), outCap);
    var body := BodyFrom([], m);
    BodyHasNoZero([], m);
    MessagesHeld([], body, cap, outCap);
    assert |Encode(m)| == cap + 1 ==> Held([], body, cap) == [];
  }
}
