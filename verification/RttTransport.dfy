/** The transport object of firmware-old/open-servo-services/src/rpc_transport.rs,
proved against the stream semantics of `Cobs`. */
module RttTransport {
  import opened Basics
  import opened Cobs

  /** The byte pipe.  A read may hand over any part of what is pending, nothing, or
      an error; a write may fail half way. */
  class Io {
    var input: seq<Byte>
    var output: seq<Byte>

    constructor (pending: seq<Byte>)
      ensures input == pending && output == []
    {
      input, output := pending, [];
    }

    method Read(room: nat) returns (chunk: Option<seq<Byte>>)
      modifies this`input
      ensures chunk.None? ==> input == old(input)
      ensures chunk.Some? ==> |chunk.value| <= room && old(input) == chunk.value + input
    {
      var n :| 0 <= n <= room && n <= |input|;
      chunk := Some(input[..n]);
      input := input[n..];
    }

    method WriteAll(data: seq<Byte>) returns (ok: bool)
      modifies this`output
      ensures ok ==> output == old(output) + data
    {
      output := output + data;
      ok := true;
    }
  }

  /** A push onto the bounded transmit buffer; the source ignores its failure. */
  function Push(buf: seq<Byte>, b: Byte): seq<Byte> {
    if |buf| < COBS_BUF_SIZE then buf + [b] else buf
  }

  datatype Received = Message(bytes: seq<Byte>) | Nothing | Failed

  /** `cobs_decode`: writes into `out`, and answers 0 for any bad frame. */
  method CobsDecode(data: seq<Byte>, out: array<Byte>) returns (n: nat)
    modifies out
    ensures n <= out.Length
    ensures match Decode(data, out.Length)
      case None => n == 0
      case Some(m) => out[..n] == m
  {
    n := 0;
    var i := 0;
    ghost var goal := Decode(data, out.Length);
    while i < |data|
      invariant 0 <= i <= |data| && n <= out.Length
      invariant goal == DecodeFrom(data[i..], out[..n], out.Length)
      decreases |data| - i
    {
      var code := data[i];
      if code == 0 {
        return 0;
      }
      ghost var from, was := i, out[..n];
      ghost var frame := data[i..];
      i := i + 1;
      for k := 1 to code
        invariant i == from + k <= |data| && n == |was| + k - 1 <= out.Length
        invariant out[..n] == was + frame[1..k]
      {
        if i >= |data| || n >= out.Length {
          return 0;
        }
        out[n] := data[i];
        n := n + 1;
        i := i + 1;
        assert out[..n] == was + frame[1..k] + [frame[k]];
      }
      assert frame[code..] == data[i..];
      if code < 255 && i < |data| {
        if n >= out.Length {
          return 0;
        }
        out[n] := 0;
        n := n + 1;
        assert out[..n] == was + frame[1..code] + [0];
      }
    }
  }

  /** The first i bytes are encoded into `buf`: closed groups, the placeholder of the open
      group's code byte at `codeIdx`, and that group. */
  ghost predicate Encoding(buf: seq<Byte>, done: seq<Byte>, group: seq<Byte>, codeIdx: nat, data: seq<Byte>, i: nat)
    requires i <= |data| && |group| < 254
  {
    && buf == done + [0] + group && codeIdx == |done| && |buf| == i + 1
    && BodyFrom([], data) == done + BodyFrom(group, data[i..])
  }

  lemma EncodingStarts(data: seq<Byte>)
    ensures Encoding([0], [], [], 0, data, 0)
  {
    assert data[0..] == data && [] + BodyFrom([], data) == BodyFrom([], data);
  }

  lemma EncodingCloses(buf: seq<Byte>, done: seq<Byte>, group: seq<Byte>, codeIdx: nat, data: seq<Byte>, i: nat)
    requires i < |data| && |group| < 254 && Encoding(buf, done, group, codeIdx, data, i) && data[i] == 0
    ensures codeIdx < |buf|
    ensures Encoding(buf[codeIdx := |group| + 1] + [0], done + [|group| + 1] + group, [], |buf|, data, i + 1)
  {
    var rest, tail := data[i..], data[i + 1..];
    assert rest[0] == 0 && rest[1..] == tail;
    AppendAssoc(done, [|group| + 1], group);
    AppendAssoc(done, [|group| + 1] + group, BodyFrom([], tail));
    assert buf[codeIdx := |group| + 1] == done + [|group| + 1] + group;
  }

  lemma EncodingGrows(buf: seq<Byte>, done: seq<Byte>, group: seq<Byte>, codeIdx: nat, data: seq<Byte>, i: nat)
    requires i < |data| && |group| < 253 && Encoding(buf, done, group, codeIdx, data, i) && data[i] != 0
    ensures Encoding(buf + [data[i]], done, group + [data[i]], codeIdx, data, i + 1)
  {
    var rest := data[i..];
    assert rest[0] == data[i] && rest[1..] == data[i + 1..];
    AppendAssoc(done + [0], group, [data[i]]);
  }

  lemma EncodingEnds(buf: seq<Byte>, done: seq<Byte>, group: seq<Byte>, codeIdx: nat, data: seq<Byte>)
    requires |group| < 254 && Encoding(buf, done, group, codeIdx, data, |data|)
    ensures codeIdx < |buf| && buf[codeIdx := |group| + 1] == BodyFrom([], data)
  {
    assert data[|data|..] == [];
    AppendAssoc(done, [|group| + 1], group);
  }

  class RttTransport {
    const io: Io
    const rxBuf: array<Byte>
    var rxPos: nat
    var txBuf: seq<Byte>

    constructor (io: Io, rxBuf: array<Byte>)
      ensures this.io == io && this.rxBuf == rxBuf && rxPos == 0 && txBuf == []
    {
      this.io, this.rxBuf, rxPos, txBuf := io, rxBuf, 0, [];
    }

    ghost predicate Valid()
      reads this
    {
      rxPos <= rxBuf.Length
    }

    ghost function Held(): seq<Byte>
      requires Valid()
      reads this, rxBuf
    {
      rxBuf[..rxPos]
    }

    /** What the receiver has still to deliver, if nothing more is ever sent. */
    ghost function Due(outCap: nat): seq<seq<Byte>>
      requires Valid()
      reads this, rxBuf, io
    {
      Messages([], Held() + io.input, rxBuf.Length, outCap)
    }

    /** Patch the open group's code byte and open the next group behind it. */
    method CloseGroup(codeIdx: nat, code: Byte) returns (next: nat)
      modifies this`txBuf
      ensures next == |old(txBuf)|
      ensures txBuf == Push(if codeIdx < |old(txBuf)| then old(txBuf)[codeIdx := code] else old(txBuf), 0)
    {
      if codeIdx < |txBuf| {
        txBuf := txBuf[codeIdx := code];
      }
      next := |txBuf|;
      txBuf := Push(txBuf, 0);
    }

    /** Encodes in place, back-patching each group's code byte.  The buffer is never full
        while a message of at most 128 bytes is encoded, so no group reaches 254 bytes. */
    method EncodeTx(data: seq<Byte>)
      modifies this`txBuf
      ensures |data| <= MAX_MSG_SIZE ==> txBuf == Encode(data)
      ensures |data| > MAX_MSG_SIZE ==> txBuf != Encode(data)
    {
      txBuf := [];
      var codeIdx: nat := 0;
      txBuf := Push(txBuf, 0);
      var code: Byte := 1;
      ghost var done: seq<Byte>, group: seq<Byte> := [], [];
      EncodingStarts(data);
      for i := 0 to |data|
        invariant |txBuf| <= COBS_BUF_SIZE && 1 <= code == |group| + 1 < 255
        invariant i <= MAX_MSG_SIZE ==> Encoding(txBuf, done, group, codeIdx, data, i)
      {
        var byte := data[i];
        if byte == 0 {
          if i < MAX_MSG_SIZE {
            EncodingCloses(txBuf, done, group, codeIdx, data, i);
          }
          codeIdx := CloseGroup(codeIdx, code);
          done, group, code := done + [code] + group, [], 1;
        } else {
          if i < MAX_MSG_SIZE {
            EncodingGrows(txBuf, done, group, codeIdx, data, i);
          }
          txBuf := Push(txBuf, byte);
          group, code := group + [byte], code + 1;
          if code == 0xFF {
            codeIdx := CloseGroup(codeIdx, code);
            done, group, code := done + [code] + group, [], 1;
          }
        }
      }
      if |data| <= MAX_MSG_SIZE {
        EncodingEnds(txBuf, done, group, codeIdx, data);
      }
      if codeIdx < |txBuf| {
        txBuf := txBuf[codeIdx := code];
      }
      txBuf := Push(txBuf, 0);
      EncodeFits(data);
    }

    method Send(data: seq<Byte>) returns (ok: bool)
      modifies this`txBuf, io`output
      ensures |data| <= MAX_MSG_SIZE ==> txBuf == Encode(data)
      ensures |data| > MAX_MSG_SIZE ==> txBuf != Encode(data)
      ensures ok ==> io.output == old(io.output) + txBuf
    {
      EncodeTx(data);
      ok := io.WriteAll(txBuf);
    }

    /** Drop the first `n` bytes held (`copy_within`). */
    method Shift(n: nat)
      requires Valid() && n <= rxPos
      modifies this`rxPos, rxBuf
      ensures Valid() && Held() == old(Held())[n..]
    {
      forall i | 0 <= i < rxPos - n {
        rxBuf[i] := rxBuf[i + n];
      }
      rxPos := rxPos - n;
    }

    method FindDelimiter() returns (pos: nat)
      requires Valid()
      ensures pos <= rxPos && NoZero(Held()[..pos]) && (pos < rxPos ==> rxBuf[pos] == 0)
    {
      pos := 0;
      while pos < rxPos && rxBuf[pos] != 0
        invariant pos <= rxPos && NoZero(Held()[..pos])
      {
        pos := pos + 1;
      }
    }

    /** Decode and drop the frame that ends at `pos`. */
    method TakeFrame(pos: nat, out: array<Byte>) returns (n: nat)
      requires Valid() && out != rxBuf && pos < rxPos && NoZero(Held()[..pos]) && rxBuf[pos] == 0
      modifies this`rxPos, rxBuf, out
      ensures Valid() && rxPos < old(rxPos) && n <= out.Length
      ensures old(Due(out.Length)) == (if n > 0 then [out[..n]] else []) + Due(out.Length)
    {
      ghost var held := Held();
      FrameIsDue(held, pos, io.input, rxBuf.Length, out.Length);
      n := 0;
      if pos > 0 {
        var frame := rxBuf[..pos];
        assert frame == held[..pos];
        n := CobsDecode(frame, out);
        assert Held() == held;
        Shift(pos + 1);
      } else {
        Shift(1);
      }
    }

    /** Make room if the buffer is full of one unfinished frame, then read. */
    method Fill(ghost outCap: nat) returns (got: Option<nat>)
      requires Valid() && NoZero(Held())
      modifies this`rxPos, rxBuf, io`input
      ensures Valid() && Due(outCap) == old(Due(outCap))
      ensures got.Some? && got.value > 0 ==> 2 * |io.input| + rxPos < 2 * |old(io.input)| + old(rxPos)
      ensures got.None? || got.value == 0 ==> NoZero(Held())
    {
      if rxPos >= rxBuf.Length {
        FullIsDropped(Held(), io.input, rxBuf.Length, outCap);
        rxPos := 0;
      }
      ghost var before := Held();
      var chunk := io.Read(rxBuf.Length - rxPos);
      if chunk.None? {
        return None;
      }
      var bytes := chunk.value;
      forall i | 0 <= i < |bytes| {
        rxBuf[rxPos + i] := bytes[i];
      }
      rxPos := rxPos + |bytes|;
      assert Held() == before + bytes;
      AppendAssoc(before, bytes, io.input);
      got := Some(|bytes|);
    }

    /** One call of `recv`: it delivers the first message due, or reads until the
        pipe has nothing or fails, and then holds no complete frame. */
    method Recv(out: array<Byte>) returns (r: Received)
      requires Valid() && out != rxBuf
      modifies this`rxPos, rxBuf, io`input, out
      ensures Valid()
      ensures match r
        case Message(m) => 0 < |m| <= out.Length && m == out[..|m|] && old(Due(out.Length)) == [m] + Due(out.Length)
        case Nothing => old(Due(out.Length)) == Due(out.Length) && NoZero(Held())
        case Failed => old(Due(out.Length)) == Due(out.Length) && NoZero(Held())
    {
      ghost var due := Due(out.Length);
      while true
        invariant Valid() && due == Due(out.Length)
        decreases 2 * |io.input| + rxPos
      {
        var pos := FindDelimiter();
        if pos < rxPos {
          var n := TakeFrame(pos, out);
          if n > 0 {
            r := Message(out[..n]);
            return;
          }
          assert [] + Due(out.Length) == Due(out.Length);
          continue;
        }
        assert Held()[..pos] == Held();
        var n := Fill(out.Length);
        if n.None? {
          r := Failed;
          return;
        }
        if n.value == 0 {
          r := Nothing;
          return;
        }
      }
    }
  }

  /** A full buffer without a delimiter owes nothing. */
  lemma FullIsDropped(held: seq<Byte>, input: seq<Byte>, cap: nat, outCap: nat)
    requires NoZero(held) && |held| == cap
    ensures Messages([], held + input, cap, outCap) == Messages([], [] + input, cap, outCap)
  {
    MessagesSkip([], held, input, cap, outCap);
    assert [] + held == held && [] + input == input;
    MessagesReset(held, input, cap, outCap);
  }

  /** The first frame in the buffer is the next one due. */
  lemma FrameIsDue(held: seq<Byte>, pos: nat, input: seq<Byte>, cap: nat, outCap: nat)
    requires pos < |held| <= cap && NoZero(held[..pos]) && held[pos] == 0
    ensures Messages([], held + input, cap, outCap)
         == Emit(held[..pos], outCap) + Messages([], held[pos + 1..] + input, cap, outCap)
  {
    assert held + input == held[..pos] + [0] + (held[pos + 1..] + input);
    MessagesFrame(held[..pos], held[pos + 1..] + input, cap, outCap);
  }

  /** Chunking invariance over whole runs: however the pipe cuts, delays or fails
      its reads, any number of calls deliver the messages of the stream in order,
      and what is not delivered yet is still due. */
  method ReceiveMany(t: RttTransport, out: array<Byte>, calls: nat) returns (msgs: seq<seq<Byte>>)
    requires t.Valid() && out != t.rxBuf
    modifies t`rxPos, t.rxBuf, t.io`input, out
    ensures t.Valid()
    ensures old(t.Due(out.Length)) == msgs + t.Due(out.Length)
  {
    msgs := [];
    ghost var due := t.Due(out.Length);
    assert [] + due == due;
    for i := 0 to calls
      invariant t.Valid() && due == msgs + t.Due(out.Length)
    {
      ghost var left := t.Due(out.Length);
      var r := t.Recv(out);
      if r.Message? {
        assert msgs + ([r.bytes] + t.Due(out.Length)) == (msgs + [r.bytes]) + t.Due(out.Length);
        msgs := msgs + [r.bytes];
      }
    }
  }

  /** Once the pipe is dry and `recv` has answered that there is nothing, nothing
      is due: every message of the stream has been delivered. */
  lemma DryPipeOwesNothing(t: RttTransport, outCap: nat)
    requires t.Valid() && NoZero(t.Held()) && t.io.input == []
    ensures t.Due(outCap) == []
  {
    assert t.Held() + [] == t.Held();
    MessagesNone([], t.Held(), t.rxBuf.Length, outCap);
  }

  /** A list of messages sent one after the other. */
  method SendAll(t: RttTransport, msgs: seq<seq<Byte>>) returns (ok: bool)
    requires forall i :: 0 <= i < |msgs| ==> |msgs[i]| <= MAX_MSG_SIZE
    modifies t`txBuf, t.io`output
    ensures ok ==> t.io.output == old(t.io.output) + Stream(msgs)
  {
    assert msgs[0..] == msgs;
    for i := 0 to |msgs|
      invariant t.io.output + Stream(msgs[i..]) == old(t.io.output) + Stream(msgs)
    {
      ghost var was := t.io.output;
      ok := t.Send(msgs[i]);
      if !ok {
        return;
      }
      assert msgs[i..][0] == msgs[i] && msgs[i..][1..] == msgs[i + 1..];
      AppendAssoc(was, Encode(msgs[i]), Stream(msgs[i + 1..]));
    }
    ok := true;
    assert msgs[|msgs|..] == [] && t.io.output + [] == t.io.output;
  }

  /** What arrives of what was sent.  A new transport reads a pipe that holds the stream
      of `msgs`, in chunks of any size; once the pipe is dry and no delimiter is held the
      messages returned are `msgs` if and only if each of them is deliverable. */
  method ReceiveStream(t: RttTransport, out: array<Byte>, calls: nat, ghost msgs: seq<seq<Byte>>)
    returns (received: seq<seq<Byte>>)
    requires t.Valid() && out != t.rxBuf && t.rxPos == 0 && t.io.input == Stream(msgs)
    modifies t`rxPos, t.rxBuf, t.io`input, out
    ensures t.Valid()
    ensures t.io.input == [] && NoZero(t.Held()) ==>
      (received == msgs <==> forall i :: 0 <= i < |msgs| ==> Deliverable(msgs[i], t.rxBuf.Length, out.Length))
  {
    assert t.Held() + t.io.input == Stream(msgs);
    StreamRoundTrip(msgs, t.rxBuf.Length, out.Length);
    received := ReceiveMany(t, out, calls);
    if t.io.input == [] && NoZero(t.Held()) {
      DryPipeOwesNothing(t, out.Length);
      assert received + [] == received;
    }
  }
}
