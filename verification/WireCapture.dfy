/** Edge capture end to end: the adapter's EDGES records over the link, through the
client's session (client/src/client.rs, client/src/session.rs), into the unwrap of
client/src/wire.rs. */
module WireCapture {
  import opened Basics
  import opened WireTimeline
  import Link = LinkSession

  /** The adapter's per-ring cap on one drain. */
  const DRAIN_MAX: nat := 64

  datatype Capture = Captured(edges: seq<WireEdge>, overflow: bool, now: U32) | Desync | Stalled | Malformed

  /** EDGES records as the adapter answers them, at most `DRAIN_MAX` ticks a ring. */
  predicate EdgeReports(records: seq<Link.Record>) {
    forall i :: 0 <= i < |records| ==>
      records[i].Edges? && |records[i].falls| <= DRAIN_MAX && |records[i].rises| <= DRAIN_MAX
  }

  function DrainOf(r: Link.Record): RawDrain
    requires r.Edges?
  {
    RawDrain(r.now, r.falls, r.rises)
  }

  function Drains(records: seq<Link.Record>): seq<RawDrain>
    requires EdgeReports(records)
  {
    if records == [] then [] else [DrainOf(records[0])] + Drains(records[1..])
  }

  class WireClient {
    const session: Link.Session
    const anchor: EdgeAnchor
    /** The chunks the pipe has still to deliver. */
    var pipe: seq<seq<Byte>>

    ghost function Stream(): seq<Byte> reads this, session { session.rx + Link.Concat(pipe) }

    constructor (pipe: seq<seq<Byte>>)
      ensures fresh(session) && fresh(anchor)
      ensures Stream() == Link.Concat(pipe) && anchor.Value() == RESET_ANCHOR
    {
      session := new Link.Session();
      anchor := new EdgeAnchor();
      this.pipe := pipe;
      new;
      assert [] + Link.Concat(pipe) == Link.Concat(pipe);
    }

    /** `drain_edges`, from the moment the request is sent. */
    method DrainEdges() returns (c: Capture)
      modifies this`pipe, session`rx, anchor
      ensures Stream() == Link.AfterPoll(old(Stream()))
      ensures match Link.Next(old(Stream())) {
        case Got(Edges(overflow, now, falls, rises), _) =>
          c.Captured? && c.overflow == overflow && c.now == now
          && (anchor.Value(), c.edges) == Drained(old(anchor.Value()), now, falls, rises)
        case Got(_, _) => c == Desync && anchor.Value() == old(anchor.Value())
        case Pending => c == Stalled && anchor.Value() == old(anchor.Value())
        case Bad => c == Malformed && anchor.Value() == old(anchor.Value())
      }
    {
      ghost var before := anchor.Value();
      var answer, left := Link.AwaitRecord(session, pipe);
      pipe := left;
      assert anchor.Value() == before;
      match answer {
        case Ready(Edges(overflow, now, falls, rises)) =>
          var edges := anchor.UnwrapDrain(now, falls, rises);
          c := Captured(edges, overflow, now);
        case Ready(_) => c := Desync;
        case NotYet => c := Stalled;
        case Broken => c := Malformed;
      }
    }
  }

  /** Reading `n` drains in turn. */
  method ReadTimeline(client: WireClient, n: nat, ghost records: seq<Link.Record>)
    returns (out: seq<WireEdge>, ok: bool)
    requires EdgeReports(records) && |records| == n && client.Stream() == Link.Emitted(records)
    modifies client`pipe, client.session`rx, client.anchor
    ensures ok && client.Stream() == []
    ensures (client.anchor.Value(), out) == Run(old(client.anchor.Value()), Drains(records))
  {
    out, ok := [], true;
    ghost var left := records;
    ghost var goal := Run(client.anchor.Value(), Drains(records));
    ReadsFirst(client.anchor.Value(), records);
    for i := 0 to n
      invariant ok && |left| == n - i && EdgeReports(left) && client.Stream() == Link.Emitted(left)
      invariant Reads(goal, out, client.anchor.Value(), left)
    {
      Link.NextInverts(left[0], Link.Emitted(left[1..]));
      ReadsNext(goal, out, client.anchor.Value(), left);
      var c := client.DrainEdges();
      if !c.Captured? {
        ok := false;
        break;
      }
      out := out + c.edges;
      left := left[1..];
    }
    ReadsLast(goal, out, client.anchor.Value());
  }

  /** With `out` read and `left` to come, the run ends at `goal`. */
  ghost predicate Reads(goal: (Anchor, seq<WireEdge>), out: seq<WireEdge>, a: Anchor, left: seq<Link.Record>)
    requires EdgeReports(left)
  {
    var rest := Run(a, Drains(left));
    goal == (rest.0, out + rest.1)
  }

  lemma ReadsFirst(a: Anchor, records: seq<Link.Record>)
    requires EdgeReports(records)
    ensures Reads(Run(a, Drains(records)), [], a, records)
  {
    var run := Run(a, Drains(records));
    assert [] + run.1 == run.1;
    assert run == (run.0, run.1);
  }

  lemma ReadsLast(goal: (Anchor, seq<WireEdge>), out: seq<WireEdge>, a: Anchor)
    requires Reads(goal, out, a, [])
    ensures goal == (a, out)
  {
    assert out + [] == out;
  }

  lemma ReadsNext(goal: (Anchor, seq<WireEdge>), out: seq<WireEdge>, a: Anchor, left: seq<Link.Record>)
    requires EdgeReports(left) && left != [] && Reads(goal, out, a, left)
    ensures var (b, edges) := Drained(a, left[0].now, left[0].falls, left[0].rises);
      Reads(goal, out + edges, b, left[1..])
  {
    var (b, edges) := Drained(a, left[0].now, left[0].falls, left[0].rises);
    assert Drains(left)[1..] == Drains(left[1..]);
    AppendAssoc(out, edges, Run(b, Drains(left[1..])).1);
  }

  /** However the transfer cuts the records and however often the session is polled,
      once it is dry the unwrapped edges are the true timeline, modulo 2^32, exactly
      when every edge is in reach of its anchor. */
  lemma CaptureIsTruth(truth: seq<int>, drains: seq<TrueDrain>, records: seq<Link.Record>, events: seq<Link.Event>)
    requires LegalRun(truth, Count(0, 0), drains)
    requires EdgeReports(records) && Drains(records) == Shipped(truth, Count(0, 0), drains)
    requires Link.Fed(events) == Link.Emitted(records)
    requires Link.Next(Link.Serve([], events).1).Pending?
    ensures var received := Link.Records(Link.Serve([], events).0);
      && received == records
      && Emitted(Last(Count(0, 0), drains)) <= |truth|
      && (Run(RESET_ANCHOR, Drains(received)).1 == TrueEdges(truth, 0, Emitted(Last(Count(0, 0), drains)))
          <==> RunInReach(truth, None, Count(0, 0), drains))
  {
    Link.LinkDelivers(records, events);
    assert Tracks(RESET_ANCHOR, truth, None, Count(0, 0));
    TimelineRefined(truth, RESET_ANCHOR, None, Count(0, 0), drains);
  }
}
