/** The edge-capture unwrap of client/src/wire.rs.

The adapter ships each wire edge as the low 16 bits of a 32-bit tick, one ring
per polarity.  `EdgeAnchor.UnwrapDrain` merges the rings by alternation and
chains every tick onto one 32-bit anchor.  The reference is a true timeline of
unbounded ticks; the theorems compare the two over whole drain schedules. */
module WireTimeline {
  import opened Basics

  const WRAP: int := 0x1_0000
  const PAGE: int := 0x1_0000_0000
  const ANCHOR_GUARD: int := 4096
  /** `u32::MAX / 2`: an empty drain lifts the anchor only over shorter spans. */
  const LIFT_SPAN: int := 0x7FFF_FFFF

  datatype Level = Low | High
  datatype WireEdge = WireEdge(tick: U32, level: Level)

  /** Wrapping casts to u16 and u32. */
  function Low16(x: int): U16 { x % 0x1_0000 }
  function Word(x: int): U32 { x % 0x1_0000_0000 }

  function Flip(level: Level): Level {
    if level.Low? then High else Low
  }

  // ---------------------------------------------------------------------
  // One drain
  // ---------------------------------------------------------------------

  datatype RawEdge = RawEdge(raw: U16, level: Level)
  datatype Ordered = Ordered(edges: seq<RawEdge>, lead: Level, rest: seq<U16>)

  /** The alternation merge of the two rings; `rest` is the falls that must wait
      for a rise still undrained. */
  function Order(lead: Level, falls: seq<U16>, rises: seq<U16>): Ordered
    decreases |falls| + |rises|
  {
    if lead.Low? && falls != [] then
      var o := Order(High, falls[1..], rises);
      o.(edges := [RawEdge(falls[0], Low)] + o.edges)
    else if rises != [] then
      var o := Order(Low, falls, rises[1..]);
      o.(edges := [RawEdge(rises[0], High)] + o.edges)
    else
      Ordered([], lead, falls)
  }

  /** Where a raw tick lands: the first u32 at or after the anchor, or, for the
      first edge after a reset, the last u32 at or before `now`. */
  function Place(anchor: Option<U32>, now: U32, raw: U16): U32 {
    match anchor
    case None => Word(now - Low16(Low16(now) - raw))
    case Some(prev) => Word(prev + Low16(raw - Low16(prev)))
  }

  function Chain(anchor: Option<U32>, now: U32, edges: seq<RawEdge>): (out: seq<WireEdge>)
    ensures |out| == |edges|
    decreases |edges|
  {
    if edges == [] then []
    else
      var t := Place(anchor, now, edges[0].raw);
      [WireEdge(t, edges[0].level)] + Chain(Some(t), now, edges[1..])
  }

  /** An empty drain's lift of the anchor toward `now`. */
  function Lift(tick: Option<U32>, now: U32): Option<U32> {
    var floor := Word(now - ANCHOR_GUARD);
    if tick.None? || Word(floor - tick.value) < LIFT_SPAN then Some(floor) else tick
  }

  datatype Anchor = Anchor(tick: Option<U32>, lead: Level, carry: seq<U16>)

  const RESET_ANCHOR := Anchor(None, Low, [])

  function Drained(a: Anchor, now: U32, falls: seq<U16>, rises: seq<U16>): (Anchor, seq<WireEdge>) {
    var o := Order(a.lead, a.carry + falls, rises);
    var out := Chain(a.tick, now, o.edges);
    var tick :=
      if out != [] then Some(out[|out| - 1].tick)
      else if o.rest != [] then a.tick
      else Lift(a.tick, now);
    (Anchor(tick, o.lead, o.rest), out)
  }

  /** What remains to be emitted when `fi` falls and `ri` rises are consumed. */
  ghost function Pending(lead: Level, anchor: Option<U32>, now: U32, falls: seq<U16>, fi: nat, rises: seq<U16>, ri: nat)
    : (Level, seq<U16>, seq<WireEdge>)
    requires fi <= |falls| && ri <= |rises|
  {
    var o := Order(lead, falls[fi..], rises[ri..]);
    (o.lead, o.rest, Chain(anchor, now, o.edges))
  }

  lemma PendingStep(lead: Level, anchor: Option<U32>, now: U32, falls: seq<U16>, fi: nat, rises: seq<U16>, ri: nat,
                    level: Level)
    requires fi <= |falls| && ri <= |rises|
    requires if level.Low? then lead.Low? && fi < |falls| else ri < |rises| && (lead.High? || fi == |falls|)
    ensures var was := Pending(lead, anchor, now, falls, fi, rises, ri);
      var p := Place(anchor, now, if level.Low? then falls[fi] else rises[ri]);
      var next := Pending(Flip(level), Some(p), now, falls, if level.Low? then fi + 1 else fi,
                          rises, if level.Low? then ri else ri + 1);
      was == (next.0, next.1, [WireEdge(p, level)] + next.2)
  {
    if level.Low? {
      assert falls[fi..][1..] == falls[fi + 1..];
    } else {
      assert rises[ri..][1..] == rises[ri + 1..];
    }
    var o := Order(lead, falls[fi..], rises[ri..]);
    assert o.edges[1..] == Order(Flip(level), falls[if level.Low? then fi + 1 else fi..],
                                 rises[if level.Low? then ri else ri + 1..]).edges;
  }

  lemma PendingEnd(lead: Level, anchor: Option<U32>, now: U32, falls: seq<U16>, fi: nat, rises: seq<U16>, ri: nat)
    requires fi <= |falls| && ri == |rises| && (lead.High? || fi == |falls|)
    ensures Pending(lead, anchor, now, falls, fi, rises, ri) == (lead, falls[fi..], [])
  {
  }

  /** With `out` emitted and `left` pending, the drain comes to `goal`. */
  ghost predicate Owes(goal: (Level, seq<U16>, seq<WireEdge>), out: seq<WireEdge>,
                       left: (Level, seq<U16>, seq<WireEdge>))
  {
    goal == (left.0, left.1, out + left.2)
  }

  lemma OwesStep(goal: (Level, seq<U16>, seq<WireEdge>), out: seq<WireEdge>, left: (Level, seq<U16>, seq<WireEdge>),
                 e: WireEdge, next: (Level, seq<U16>, seq<WireEdge>))
    requires Owes(goal, out, left) && left == (next.0, next.1, [e] + next.2)
    ensures Owes(goal, out + [e], next)
  {
    AppendAssoc(out, [e], next.2);
  }

  /** The anchor after `out` was emitted and `carry` deferred, and the output. */
  ghost function Settled(p: (Level, seq<U16>, seq<WireEdge>), tick: Option<U32>, now: U32): (Anchor, seq<WireEdge>) {
    var a := if p.2 == [] then tick else Some(p.2[|p.2| - 1].tick);
    (Anchor(if p.2 == [] && p.1 == [] then Lift(a, now) else a, p.0, p.1), p.2)
  }

  /** A drain is what is pending at its start, with the anchor moved accordingly. */
  lemma DrainedIsPending(a: Anchor, now: U32, falls: seq<U16>, rises: seq<U16>, all: seq<U16>)
    requires all == a.carry + falls
    ensures Drained(a, now, falls, rises) == Settled(Pending(a.lead, a.tick, now, all, 0, rises, 0), a.tick, now)
  {
    assert all[0..] == all && rises[0..] == rises;
  }

  class EdgeAnchor {
    var tick: Option<U32>
    var lead: Level
    var carry: seq<U16>

    ghost function Value(): Anchor reads this { Anchor(tick, lead, carry) }

    constructor ()
      ensures Value() == RESET_ANCHOR
    {
      tick, lead, carry := None, Low, [];
    }

    /** The merging loop of `unwrap_drain`: `fi` falls are consumed and all rises, or all
        falls and rises; `a` is the anchor after the last edge. */
    method Merge(now: U32, all: seq<U16>, rises: seq<U16>) returns (out: seq<WireEdge>, fi: nat, a: Option<U32>)
      modifies this`lead
      ensures fi <= |all| && (lead, all[fi..], out) == Pending(old(lead), tick, now, all, 0, rises, 0)
      ensures a == if out == [] then tick else Some(out[|out| - 1].tick)
    {
      var ri := 0;
      out, fi, a := [], 0, tick;
      ghost var goal := Pending(lead, tick, now, all, 0, rises, 0);
      assert [] + goal.2 == goal.2;
      while fi < |all| || ri < |rises|
        invariant 0 <= fi <= |all| && 0 <= ri <= |rises|
        invariant Owes(goal, out, Pending(lead, a, now, all, fi, rises, ri))
        invariant a == if out == [] then tick else Some(out[|out| - 1].tick)
        decreases |all| - fi + |rises| - ri
      {
        var level;
        if lead.Low? && fi < |all| {
          level := Low;
        } else if lead.High? && ri == |rises| {
          break;
        } else {
          level := High;
        }
        ghost var left := Pending(lead, a, now, all, fi, rises, ri);
        PendingStep(lead, a, now, all, fi, rises, ri, level);
        var t;
        if level.Low? {
          t := all[fi];
          fi := fi + 1;
        } else {
          t := rises[ri];
          ri := ri + 1;
        }
        var p := Place(a, now, t);
        a := Some(p);
        OwesStep(goal, out, left, WireEdge(p, level), Pending(Flip(level), a, now, all, fi, rises, ri));
        out := out + [WireEdge(p, level)];
        lead := Flip(level);
      }
      PendingEnd(lead, a, now, all, fi, rises, ri);
      assert out + [] == out;
    }

    /** `unwrap_drain`. */
    method UnwrapDrain(now: U32, falls: seq<U16>, rises: seq<U16>) returns (out: seq<WireEdge>)
      modifies this
      ensures (Value(), out) == Drained(old(Value()), now, falls, rises)
    {
      var all := carry + falls;
      DrainedIsPending(Value(), now, falls, rises, all);
      carry := [];
      var fi, a;
      out, fi, a := Merge(now, all, rises);
      carry := carry + all[fi..];
      assert carry == all[fi..];
      if out == [] && carry == [] {
        a := Lift(a, now);
      }
      assert Settled((lead, carry, out), tick, now) == (Anchor(a, lead, carry), out);
      tick := a;
    }
  }

  // ---------------------------------------------------------------------
  // Conservation, on any input
  // ---------------------------------------------------------------------

  /** The ticks of one polarity, in order. */
  function Of(edges: seq<RawEdge>, level: Level): seq<U16> {
    if edges == [] then [] else Pick(edges[0], level) + Of(edges[1..], level)
  }

  function Pick(e: RawEdge, level: Level): seq<U16> {
    if e.level == level then [e.raw] else []
  }

  /** The emitted edges as the rings held them. */
  function Strip(out: seq<WireEdge>): seq<RawEdge> {
    seq(|out|, i requires 0 <= i < |out| => RawEdge(Low16(out[i].tick), out[i].level))
  }

  /** A 32-bit tick the anchor can reach: less than one wrap ahead of it, or,
      with no anchor yet, less than one wrap behind `now`. */
  ghost predicate Reaches(anchor: Option<int>, now: int, tick: int) {
    match anchor
    case None => Word(now - tick) < WRAP
    case Some(prev) => Word(tick - prev) < WRAP
  }

  ghost predicate Chained(anchor: Option<int>, now: int, out: seq<WireEdge>) {
    forall i :: 0 <= i < |out| ==> Reaches(Before(anchor, out, i), now, out[i].tick)
  }

  ghost function Before(anchor: Option<int>, out: seq<WireEdge>, i: nat): Option<int>
    requires i < |out|
  {
    if i == 0 then anchor else Some(out[i - 1].tick)
  }

  lemma OfCons(e: RawEdge, edges: seq<RawEdge>)
    ensures Of([e] + edges, e.level) == [e.raw] + Of(edges, e.level)
    ensures Of([e] + edges, Flip(e.level)) == Of(edges, Flip(e.level))
  {
    assert ([e] + edges)[1..] == edges;
  }

  lemma {:induction false} OfAppend(a: seq<RawEdge>, b: seq<RawEdge>, level: Level)
    ensures Of(a + b, level) == Of(a, level) + Of(b, level)
  {
    if a == [] {
      assert a + b == b;
    } else {
      var p := Pick(a[0], level);
      OfAppend(a[1..], b, level);
      assert (a + b)[0] == a[0] && (a + b)[1..] == a[1..] + b;
      AppendAssoc(p, Of(a[1..], level), Of(b, level));
    }
  }

  lemma ConsConserves(e: RawEdge, edges: seq<RawEdge>, rest: seq<U16>, falls: seq<U16>, rises: seq<U16>)
    requires Of(edges, Low) + rest == falls && Of(edges, High) == rises
    ensures Of([e] + edges, Low) + rest == Pick(e, Low) + falls
    ensures Of([e] + edges, High) == Pick(e, High) + rises
  {
    OfCons(e, edges);
    AppendAssoc(Pick(e, Low), Of(edges, Low), rest);
    assert [] + falls == falls && [] + rises == rises;
    assert [] + Of(edges, Low) == Of(edges, Low) && [] + Of(edges, High) == Of(edges, High);
  }

  /** Every tick of both rings is in the merge or left over, and what is left over waits
      for a rise. */
  ghost predicate Keeps(o: Ordered, lead: Level, falls: seq<U16>, rises: seq<U16>) {
    && Of(o.edges, Low) + o.rest == falls
    && Of(o.edges, High) == rises
    && (o.rest != [] ==> o.lead.High?)
    && (o.edges == [] ==> o.lead == lead)
  }

  lemma KeepsCons(o: Ordered, was: Level, lead: Level, e: RawEdge, falls: seq<U16>, rises: seq<U16>)
    requires Keeps(o, was, falls, rises)
    ensures Keeps(o.(edges := [e] + o.edges), lead, Pick(e, Low) + falls, Pick(e, High) + rises)
  {
    ConsConserves(e, o.edges, o.rest, falls, rises);
  }

  lemma FallFirst(falls: seq<U16>, rises: seq<U16>)
    requires falls != [] && Keeps(Order(High, falls[1..], rises), High, falls[1..], rises)
    ensures Keeps(Order(Low, falls, rises), Low, falls, rises)
  {
    KeepsCons(Order(High, falls[1..], rises), High, Low, RawEdge(falls[0], Low), falls[1..], rises);
    assert [falls[0]] + falls[1..] == falls && [] + rises == rises;
  }

  lemma RiseFirst(lead: Level, falls: seq<U16>, rises: seq<U16>)
    requires rises != [] && (lead.High? || falls == []) && Keeps(Order(Low, falls, rises[1..]), Low, falls, rises[1..])
    ensures Keeps(Order(lead, falls, rises), lead, falls, rises)
  {
    KeepsCons(Order(Low, falls, rises[1..]), Low, lead, RawEdge(rises[0], High), falls, rises[1..]);
    assert [rises[0]] + rises[1..] == rises && [] + falls == falls;
  }

  lemma {:induction false} OrderConserves(lead: Level, falls: seq<U16>, rises: seq<U16>)
    ensures Keeps(Order(lead, falls, rises), lead, falls, rises)
    decreases |falls| + |rises|
  {
    if lead.Low? && falls != [] {
      OrderConserves(High, falls[1..], rises);
      FallFirst(falls, rises);
    } else if rises != [] {
      OrderConserves(Low, falls, rises[1..]);
      RiseFirst(lead, falls, rises);
    }
  }

  lemma SameLow16(a: int, b: int, k: int)
    requires a == b + k * WRAP
    ensures Low16(a) == Low16(b)
  {
    ModUnique(a, WRAP, b / WRAP + k, Low16(b));
  }

  lemma SameWord(a: int, b: int, k: int)
    requires a == b + k * PAGE
    ensures Word(a) == Word(b) && Low16(a) == Low16(b)
  {
    ModUnique(a, PAGE, b / PAGE + k, Word(b));
    SameLow16(a, b, k * WRAP);
  }

  lemma SmallIsItself(x: int)
    ensures 0 <= x < WRAP ==> Low16(x) == x
    ensures 0 <= x < PAGE ==> Word(x) == x
  {
  }

  /** The first tick at or after `g` with the low bits of `x`. */
  lemma Ahead(g: int, x: int)
    ensures var t := Word(g + Low16(x - g));
      && Low16(t) == Low16(x) && Word(t - g) < WRAP
      && (t == Word(x) <==> Word(x - g) < WRAP)
  {
    var d, m := Low16(x - g), Word(x - g);
    var t := Word(g + d);
    SameWord(t, g + d, -((g + d) / PAGE));
    SameLow16(x, g + d, (x - g) / WRAP);
    SameWord(t - g, d, -((g + d) / PAGE));
    SameWord(x - g, m, (x - g) / PAGE);
    if m < WRAP {
      SameWord(x, g + m, (x - g) / PAGE);
    }
    if t == Word(x) {
      SameWord(x - g, t - g, x / PAGE);
    }
  }

  /** The last tick at or before `n` with the low bits of `x`. */
  lemma Behind(n: int, x: int)
    ensures var t := Word(n - Low16(n - x));
      && Low16(t) == Low16(x) && Word(n - t) < WRAP
      && (t == Word(x) <==> Word(n - x) < WRAP)
  {
    var d := Low16(n - x);
    var t := Word(n - d);
    SameWord(t, n - d, -((n - d) / PAGE));
    SameLow16(x, n - d, -((n - x) / WRAP));
    SameWord(n - t, d, (n - d) / PAGE);
    SmallIsItself(d);
    BehindExact(n, x, d);
  }

  lemma BehindExact(n: int, x: int, d: int)
    requires d == Low16(n - x)
    ensures Word(n - d) == Word(x) <==> Word(n - x) < WRAP
  {
    var m, t := Word(n - x), Word(n - d);
    SameWord(n - x, m, (n - x) / PAGE);
    if m < WRAP {
      SmallIsItself(m);
      SameWord(x, n - m, -((n - x) / PAGE));
    }
    if t == Word(x) {
      SameWord(n - t, d, (n - d) / PAGE);
      SameWord(n - x, n - t, -(x / PAGE));
      SmallIsItself(d);
    }
  }

  ghost predicate Agrees(tick: Option<U32>, anchor: Option<int>) {
    match anchor
    case None => tick.None?
    case Some(g) => tick == Some(Word(g))
  }

  /** A tick is placed where it happened exactly when the anchor reaches it. */
  lemma PlaceIsTruth(tick: Option<U32>, anchor: Option<int>, now: int, x: int)
    requires Agrees(tick, anchor)
    ensures var t := Place(tick, Word(now), Low16(x));
      && Low16(t) == Low16(x) && Reaches(anchor, now, t)
      && (t == Word(x) <==> Reaches(anchor, now, x))
  {
    match anchor
    case None => PlaceFirst(now, x);
    case Some(g) => PlaceNext(g, x);
  }

  lemma PlaceFirst(now: int, x: int)
    ensures Word(Word(now) - Low16(Low16(Word(now)) - Low16(x))) == Word(now - Low16(now - x))
    ensures var t := Word(now - Low16(now - x));
      Low16(t) == Low16(x) && Word(now - t) < WRAP && (t == Word(x) <==> Word(now - x) < WRAP)
  {
    var n, d := Word(now), Low16(now - x);
    SameWord(now, n, now / PAGE);
    SameLow16(Low16(n) - Low16(x), now - x, -(now / WRAP) + x / WRAP);
    SameWord(n - d, now - d, -(now / PAGE));
    Behind(now, x);
  }

  lemma PlaceNext(g: int, x: int)
    ensures Word(Word(g) + Low16(Low16(x) - Low16(Word(g)))) == Word(g + Low16(x - g))
    ensures var t := Word(g + Low16(x - g));
      Low16(t) == Low16(x) && Word(t - g) < WRAP && (t == Word(x) <==> Word(x - g) < WRAP)
  {
    var p, d := Word(g), Low16(x - g);
    SameWord(g, p, g / PAGE);
    SameLow16(Low16(x) - Low16(p), x - g, -(x / WRAP) + g / WRAP);
    SameWord(p + d, g + d, -(g / PAGE));
    Ahead(g, x);
  }

  lemma PlaceKeeps(anchor: Option<U32>, now: U32, raw: U16)
    ensures var t := Place(anchor, now, raw); Low16(t) == raw && Reaches(anchor, now, t)
  {
    SmallIsItself(raw);
    SmallIsItself(now);
    if anchor.Some? { SmallIsItself(anchor.value); }
    PlaceIsTruth(anchor, anchor, now, raw);
  }

  lemma {:induction false} ChainStrips(anchor: Option<U32>, now: U32, edges: seq<RawEdge>)
    ensures Strip(Chain(anchor, now, edges)) == edges
    decreases |edges|
  {
    if edges != [] {
      var t := Place(anchor, now, edges[0].raw);
      PlaceKeeps(anchor, now, edges[0].raw);
      ChainStrips(Some(t), now, edges[1..]);
      StripCons(WireEdge(t, edges[0].level), Chain(Some(t), now, edges[1..]));
    }
  }

  lemma StripCons(e: WireEdge, out: seq<WireEdge>)
    ensures Strip([e] + out) == [RawEdge(Low16(e.tick), e.level)] + Strip(out)
  {
  }

  lemma {:induction false} ChainReaches(anchor: Option<U32>, now: U32, edges: seq<RawEdge>)
    ensures Chained(anchor, now, Chain(anchor, now, edges))
    decreases |edges|
  {
    if edges != [] {
      var t := Place(anchor, now, edges[0].raw);
      PlaceKeeps(anchor, now, edges[0].raw);
      ChainReaches(Some(t), now, edges[1..]);
      ChainedCons(anchor, now, WireEdge(t, edges[0].level), Chain(Some(t), now, edges[1..]));
    }
  }

  lemma ChainedCons(anchor: Option<int>, now: int, e: WireEdge, out: seq<WireEdge>)
    requires Reaches(anchor, now, e.tick) && Chained(Some(e.tick), now, out)
    ensures Chained(anchor, now, [e] + out)
  {
    var all := [e] + out;
    forall i | 0 <= i < |all| ensures Reaches(Before(anchor, all, i), now, all[i].tick) {
      if i > 0 {
        assert all[i] == out[i - 1] && all[i - 1] == if i == 1 then e else out[i - 2];
        assert Before(anchor, all, i) == Before(Some(e.tick), out, i - 1);
      }
    }
  }

  /** One drain of anything at all: no raw tick is lost, invented or reordered
      within its polarity, and only a fully empty drain lifts the anchor. */
  lemma DrainConserves(a: Anchor, now: U32, falls: seq<U16>, rises: seq<U16>)
    ensures var (b, out) := Drained(a, now, falls, rises);
      && Of(Strip(out), Low) + b.carry == a.carry + falls
      && Of(Strip(out), High) == rises
      && Chained(a.tick, now, out)
      && (b.carry != [] ==> b.lead.High?)
      && (out != [] ==> b.tick == Some(out[|out| - 1].tick))
      && (out == [] && a.carry + falls != [] ==> b == Anchor(a.tick, a.lead, a.carry + falls))
      && (out == [] && a.carry + falls == [] ==>
            && rises == [] && b.lead == a.lead && b.tick.Some?
            && (b.tick == a.tick || b.tick.value == Word(now - ANCHOR_GUARD))
            && (a.tick.Some? ==> Word(b.tick.value - a.tick.value) < LIFT_SPAN))
  {
    var o := Order(a.lead, a.carry + falls, rises);
    OrderConserves(a.lead, a.carry + falls, rises);
    ChainStrips(a.tick, now, o.edges);
    ChainReaches(a.tick, now, o.edges);
    if o.edges == [] {
      assert [] + o.rest == o.rest;
      SmallIsItself(0);
    }
  }

  datatype RawDrain = RawDrain(now: U32, falls: seq<U16>, rises: seq<U16>)

  function Run(a: Anchor, drains: seq<RawDrain>): (Anchor, seq<WireEdge>)
    decreases |drains|
  {
    if drains == [] then (a, [])
    else
      var (b, out) := Drained(a, drains[0].now, drains[0].falls, drains[0].rises);
      var (c, rest) := Run(b, drains[1..]);
      (c, out + rest)
  }

  function AllFalls(drains: seq<RawDrain>): seq<U16> {
    if drains == [] then [] else drains[0].falls + AllFalls(drains[1..])
  }

  function AllRises(drains: seq<RawDrain>): seq<U16> {
    if drains == [] then [] else drains[0].rises + AllRises(drains[1..])
  }

  /** One step of the run's bookkeeping, on bare sequences. */
  lemma Splice(out: seq<U16>, rest: seq<U16>, held: seq<U16>, left: seq<U16>,
               was: seq<U16>, more: seq<U16>, later: seq<U16>)
    requires out + held == was + more
    requires rest + left == held + later
    ensures (out + rest) + left == was + (more + later)
  {
    assert (out + rest) + left == out + (held + later);
    assert was + (more + later) == (out + held) + later;
  }

  lemma StripAppend(a: seq<WireEdge>, b: seq<WireEdge>)
    ensures Of(Strip(a + b), Low) == Of(Strip(a), Low) + Of(Strip(b), Low)
    ensures Of(Strip(a + b), High) == Of(Strip(a), High) + Of(Strip(b), High)
  {
    assert Strip(a + b) == Strip(a) + Strip(b);
    OfAppend(Strip(a), Strip(b), Low);
    OfAppend(Strip(a), Strip(b), High);
  }

  lemma DrainKeepsRaw(a: Anchor, d: RawDrain)
    ensures var step := Drained(a, d.now, d.falls, d.rises);
      Of(Strip(step.1), Low) + step.0.carry == a.carry + d.falls && Of(Strip(step.1), High) == d.rises
  {
    DrainConserves(a, d.now, d.falls, d.rises);
  }

  /** Conservation over every run of drains, missed captures included. */
  lemma {:induction false} RunConserves(a: Anchor, drains: seq<RawDrain>)
    ensures Of(Strip(Run(a, drains).1), Low) + Run(a, drains).0.carry == a.carry + AllFalls(drains)
    ensures Of(Strip(Run(a, drains).1), High) == AllRises(drains)
    decreases |drains|
  {
    if drains == [] {
      assert Of(Strip([]), Low) == [];
      assert [] + a.carry == a.carry + AllFalls(drains);
    } else {
      var d := drains[0];
      var step := Drained(a, d.now, d.falls, d.rises);
      var tail := Run(step.0, drains[1..]);
      DrainKeepsRaw(a, d);
      RunConserves(step.0, drains[1..]);
      StripAppend(step.1, tail.1);
      Splice(Of(Strip(step.1), Low), Of(Strip(tail.1), Low), step.0.carry, tail.0.carry,
             a.carry, d.falls, AllFalls(drains[1..]));
    }
  }

  // ---------------------------------------------------------------------
  // The true timeline
  // ---------------------------------------------------------------------

  /** How many edges of each polarity the adapter has shipped so far. */
  datatype Count = Count(falls: nat, rises: nat)

  /** One drain seen from the wire: the true moment it latched, and what has been
      shipped once it is out. */
  datatype TrueDrain = TrueDrain(now: int, upTo: Count)

  /** Falls the merge can order: one more than the rises, if shipped. */
  function Orderable(c: Count): nat { if c.falls <= c.rises + 1 then c.falls else c.rises + 1 }

  function Emitted(c: Count): nat { c.rises + Orderable(c) }

  function Polarity(edge: nat): Level { if edge % 2 == 0 then Low else High }

  /** `truth[i]` is the unbounded tick of wire edge i; the bus idles high, so the
      even edges are falls.  The server snapshots rises before falls, so the
      rises shipped never outnumber the falls. */
  ghost predicate Legal(truth: seq<int>, c: Count) {
    c.rises <= c.falls && 2 * c.falls <= |truth| + 1 && 2 * c.rises <= |truth|
  }

  ghost predicate LegalRun(truth: seq<int>, c: Count, drains: seq<TrueDrain>)
    decreases |drains|
  {
    && Legal(truth, c)
    && (drains != [] ==>
          && c.falls <= drains[0].upTo.falls && c.rises <= drains[0].upTo.rises
          && LegalRun(truth, drains[0].upTo, drains[1..]))
  }

  ghost function LowBits(truth: seq<int>): (s: seq<U16>)
    ensures |s| == |truth| && forall i :: 0 <= i < |s| ==> s[i] == Low16(truth[i])
  {
    seq<U16>(|truth|, i requires 0 <= i < |truth| => Low16(truth[i]))
  }

  /** Ticks lo..hi of the falls ring, when the wire's low bits are `raw`. */
  ghost function FallTicks(raw: seq<U16>, lo: nat, hi: nat): (s: seq<U16>)
    requires lo <= hi && 2 * hi <= |raw| + 1
    ensures |s| == hi - lo && forall j :: 0 <= j < hi - lo ==> s[j] == raw[2 * (lo + j)]
  {
    seq(hi - lo, j requires 0 <= j < hi - lo => raw[2 * (lo + j)])
  }

  ghost function RiseTicks(raw: seq<U16>, lo: nat, hi: nat): (s: seq<U16>)
    requires lo <= hi && 2 * hi <= |raw|
    ensures |s| == hi - lo && forall j :: 0 <= j < hi - lo ==> s[j] == raw[2 * (lo + j) + 1]
  {
    seq(hi - lo, j requires 0 <= j < hi - lo => raw[2 * (lo + j) + 1])
  }

  /** What the adapter sends for one true drain. */
  ghost function Ship(truth: seq<int>, c: Count, d: TrueDrain): RawDrain
    requires Legal(truth, d.upTo) && c.falls <= d.upTo.falls && c.rises <= d.upTo.rises
  {
    RawDrain(Word(d.now), FallTicks(LowBits(truth), c.falls, d.upTo.falls),
             RiseTicks(LowBits(truth), c.rises, d.upTo.rises))
  }

  ghost function Shipped(truth: seq<int>, c: Count, drains: seq<TrueDrain>): seq<RawDrain>
    requires LegalRun(truth, c, drains)
    decreases |drains|
  {
    if drains == [] then []
    else
      assert LegalRun(truth, drains[0].upTo, drains[1..]);
      [Ship(truth, c, drains[0])] + Shipped(truth, drains[0].upTo, drains[1..])
  }

  ghost function Stretch(raw: seq<U16>, lo: nat, hi: nat): (s: seq<RawEdge>)
    requires lo <= hi <= |raw|
    ensures |s| == hi - lo && forall j :: 0 <= j < hi - lo ==> s[j] == RawEdge(raw[lo + j], Polarity(lo + j))
  {
    seq(hi - lo, j requires 0 <= j < hi - lo => RawEdge(raw[lo + j], Polarity(lo + j)))
  }

  ghost function TrueEdges(truth: seq<int>, lo: nat, hi: nat): (s: seq<WireEdge>)
    requires lo <= hi <= |truth|
    ensures |s| == hi - lo && forall j :: 0 <= j < hi - lo ==> s[j] == WireEdge(Word(truth[lo + j]), Polarity(lo + j))
  {
    seq<WireEdge>(hi - lo, j requires 0 <= j < hi - lo => WireEdge(Word(truth[lo + j]), Polarity(lo + j)))
  }

  /** Edges lo..hi, emitted in one drain latched at `now`, are each in reach of
      their predecessor, and the first one of the anchor. */
  ghost predicate InReach(truth: seq<int>, anchor: Option<int>, now: int, lo: nat, hi: nat)
    requires lo <= hi <= |truth|
    decreases hi - lo
  {
    lo < hi ==>
      && Reaches(anchor, now, truth[lo])
      && InReach(truth, Some(truth[lo]), now, lo + 1, hi)
  }

  ghost predicate Alternates(lead: Level, edges: seq<RawEdge>)
    decreases |edges|
  {
    edges != [] ==> edges[0].level == lead && Alternates(Flip(lead), edges[1..])
  }

  ghost function LeadAfter(lead: Level, edges: seq<RawEdge>): Level
    decreases |edges|
  {
    if edges == [] then lead else LeadAfter(Flip(lead), edges[1..])
  }

  /** Splitting an alternating stream into rings and merging them is the identity. */
  lemma {:induction false} OrderInverts(lead: Level, edges: seq<RawEdge>, rest: seq<U16>)
    requires Alternates(lead, edges) && (rest != [] ==> LeadAfter(lead, edges).High?)
    ensures Order(lead, Of(edges, Low) + rest, Of(edges, High)) == Ordered(edges, LeadAfter(lead, edges), rest)
    decreases |edges|
  {
    if edges == [] {
      assert Of(edges, Low) + rest == rest;
    } else {
      var e, tail := edges[0], edges[1..];
      OrderInverts(Flip(lead), tail, rest);
      assert edges == [e] + tail;
      OfHead(edges, e, tail);
      AppendAssoc(if lead.Low? then [e.raw] else [], Of(tail, Low), rest);
      assert [] + Of(tail, Low) == Of(tail, Low) && [] + Of(tail, High) == Of(tail, High);
      OrderCons(lead, Of(edges, Low) + rest, Of(edges, High), Of(tail, Low) + rest, Of(tail, High), e);
    }
  }

  /** One alternating step of the merge. */
  lemma OrderCons(lead: Level, falls: seq<U16>, rises: seq<U16>, falls': seq<U16>, rises': seq<U16>, e: RawEdge)
    requires e.level == lead
    requires falls == (if lead.Low? then [e.raw] else []) + falls'
    requires rises == (if lead.High? then [e.raw] else []) + rises'
    ensures var next := Order(Flip(lead), falls', rises');
      Order(lead, falls, rises) == next.(edges := [e] + next.edges)
  {
    if lead.Low? {
      assert falls[1..] == falls' && rises == rises';
    } else {
      assert rises[1..] == rises' && falls == falls';
    }
  }

  lemma {:induction false} StretchAlternates(raw: seq<U16>, lo: nat, hi: nat)
    requires lo <= hi <= |raw|
    ensures Alternates(Polarity(lo), Stretch(raw, lo, hi))
    ensures LeadAfter(Polarity(lo), Stretch(raw, lo, hi)) == Polarity(hi)
    decreases hi - lo
  {
    if lo < hi {
      StretchAlternates(raw, lo + 1, hi);
      StretchCons(raw, lo, hi);
    }
  }

  lemma StretchCons(raw: seq<U16>, lo: nat, hi: nat)
    requires lo < hi <= |raw|
    ensures Stretch(raw, lo, hi) == [RawEdge(raw[lo], Polarity(lo))] + Stretch(raw, lo + 1, hi)
  {
  }

  lemma FallTicksCons(raw: seq<U16>, lo: nat, hi: nat)
    requires lo < hi && 2 * hi <= |raw| + 1
    ensures FallTicks(raw, lo, hi) == [raw[2 * lo]] + FallTicks(raw, lo + 1, hi)
  {
  }

  lemma RiseTicksCons(raw: seq<U16>, lo: nat, hi: nat)
    requires lo < hi && 2 * hi <= |raw|
    ensures RiseTicks(raw, lo, hi) == [raw[2 * lo + 1]] + RiseTicks(raw, lo + 1, hi)
  {
  }

  lemma OfHead(edges: seq<RawEdge>, e: RawEdge, tail: seq<RawEdge>)
    requires edges == [e] + tail
    ensures Of(edges, e.level) == [e.raw] + Of(tail, e.level) && Of(edges, Flip(e.level)) == Of(tail, Flip(e.level))
  {
    OfCons(e, tail);
  }

  /** The rings of the stretch lo..hi: falls f..f' and rises r..r'. */
  ghost predicate Splits(raw: seq<U16>, lo: nat, f: nat, r: nat, hi: nat, f': nat, r': nat)
    requires lo <= hi <= |raw| && f <= f' && r <= r' && 2 * f' <= |raw| + 1 && 2 * r' <= |raw|
  {
    Of(Stretch(raw, lo, hi), Low) == FallTicks(raw, f, f') && Of(Stretch(raw, lo, hi), High) == RiseTicks(raw, r, r')
  }

  lemma NothingSplits(raw: seq<U16>, lo: nat, f: nat, r: nat)
    requires lo <= |raw| && 2 * f <= |raw| + 1 && 2 * r <= |raw|
    ensures Splits(raw, lo, f, r, lo, f, r)
  {
    assert Stretch(raw, lo, lo) == [] && FallTicks(raw, f, f) == [] && RiseTicks(raw, r, r) == [];
  }

  lemma SplitAtFall(raw: seq<U16>, lo: nat, f: nat, r: nat, hi: nat, f': nat, r': nat)
    requires lo == 2 * f && lo < hi <= |raw| && f < f' && r <= r' && 2 * f' <= |raw| + 1 && 2 * r' <= |raw|
    requires Splits(raw, lo + 1, f + 1, r, hi, f', r')
    ensures Splits(raw, lo, f, r, hi, f', r')
  {
    assert Polarity(lo) == Low;
    StretchCons(raw, lo, hi);
    OfHead(Stretch(raw, lo, hi), RawEdge(raw[lo], Low), Stretch(raw, lo + 1, hi));
    FallTicksCons(raw, f, f');
  }

  lemma SplitAtRise(raw: seq<U16>, lo: nat, f: nat, r: nat, hi: nat, f': nat, r': nat)
    requires lo == 2 * r + 1 && lo < hi <= |raw| && f <= f' && r < r' && 2 * f' <= |raw| + 1 && 2 * r' <= |raw|
    requires Splits(raw, lo + 1, f, r + 1, hi, f', r')
    ensures Splits(raw, lo, f, r, hi, f', r')
  {
    assert Polarity(lo) == High;
    StretchCons(raw, lo, hi);
    OfHead(Stretch(raw, lo, hi), RawEdge(raw[lo], High), Stretch(raw, lo + 1, hi));
    RiseTicksCons(raw, r, r');
  }

  /** `f` falls and `r` rises come before edge lo, and f' and r' before edge hi. */
  lemma {:induction false} StretchSplits(raw: seq<U16>, lo: nat, f: nat, r: nat, hi: nat, f': nat, r': nat)
    requires lo == f + r && hi == f' + r' <= |raw|
    requires r <= f <= r + 1 && r' <= f' <= r' + 1 && f <= f' && r <= r'
    ensures Splits(raw, lo, f, r, hi, f', r')
    decreases hi - lo
  {
    if lo == hi {
      NothingSplits(raw, lo, f, r);
    } else if f == r {
      StretchSplits(raw, lo + 1, f + 1, r, hi, f', r');
      SplitAtFall(raw, lo, f, r, hi, f', r');
    } else {
      StretchSplits(raw, lo + 1, f, r + 1, hi, f', r');
      SplitAtRise(raw, lo, f, r, hi, f', r');
    }
  }

  lemma TrueEdgesCons(truth: seq<int>, lo: nat, hi: nat)
    requires lo < hi <= |truth|
    ensures TrueEdges(truth, lo, hi) == [WireEdge(Word(truth[lo]), Polarity(lo))] + TrueEdges(truth, lo + 1, hi)
  {
  }

  lemma {:induction false} ChainIsTruth(truth: seq<int>, tick: Option<U32>, anchor: Option<int>, now: int,
                                        lo: nat, hi: nat)
    requires lo <= hi <= |truth| && Agrees(tick, anchor)
    ensures Chain(tick, Word(now), Stretch(LowBits(truth), lo, hi)) == TrueEdges(truth, lo, hi)
       <==> InReach(truth, anchor, now, lo, hi)
    decreases hi - lo
  {
    if lo < hi {
      var x := truth[lo];
      var t := Place(tick, Word(now), Low16(x));
      PlaceIsTruth(tick, anchor, now, x);
      StretchCons(LowBits(truth), lo, hi);
      TrueEdgesCons(truth, lo, hi);
      var chain, edges := Chain(tick, Word(now), Stretch(LowBits(truth), lo, hi)), TrueEdges(truth, lo, hi);
      assert chain[0].tick == t && edges[0].tick == Word(x);
      if t == Word(x) {
        ChainIsTruth(truth, Some(t), Some(x), now, lo + 1, hi);
        assert chain[1..] == Chain(Some(t), Word(now), Stretch(LowBits(truth), lo + 1, hi));
        assert edges[1..] == TrueEdges(truth, lo + 1, hi);
        assert chain == [chain[0]] + chain[1..] && edges == [edges[0]] + edges[1..];
      }
    }
  }

  // ---------------------------------------------------------------------
  // Whole schedules
  // ---------------------------------------------------------------------

  /** The anchor once `c` was shipped, as the truth sees it: `at` is the true tick
      it stands for. */
  ghost predicate Tracks(a: Anchor, truth: seq<int>, at: Option<int>, c: Count)
    requires Legal(truth, c)
  {
    && Agrees(a.tick, at)
    && a.lead == Polarity(Emitted(c))
    && a.carry == FallTicks(LowBits(truth), Orderable(c), c.falls)
  }

  ghost function LiftTruth(at: Option<int>, now: int): Option<int> {
    if at.None? || Word(now - ANCHOR_GUARD - at.value) < LIFT_SPAN then Some(now - ANCHOR_GUARD) else at
  }

  /** The true tick the anchor stands for after one more drain. */
  ghost function AnchorAfter(truth: seq<int>, at: Option<int>, c: Count, d: TrueDrain): Option<int>
    requires Legal(truth, d.upTo)
  {
    if Emitted(c) < Emitted(d.upTo) then Some(truth[Emitted(d.upTo) - 1])
    else if Orderable(d.upTo) < d.upTo.falls then at
    else LiftTruth(at, d.now)
  }

  /** Every edge of the schedule is in reach of the anchor it is chained to. */
  ghost predicate RunInReach(truth: seq<int>, at: Option<int>, c: Count, drains: seq<TrueDrain>)
    requires LegalRun(truth, c, drains)
    decreases |drains|
  {
    drains != [] ==>
      var d := drains[0];
      assert LegalRun(truth, d.upTo, drains[1..]);
      && InReach(truth, at, d.now, Emitted(c), Emitted(d.upTo))
      && RunInReach(truth, AnchorAfter(truth, at, c, d), d.upTo, drains[1..])
  }

  ghost function Last(c: Count, drains: seq<TrueDrain>): Count {
    if drains == [] then c else drains[|drains| - 1].upTo
  }

  lemma FallTicksJoin(raw: seq<U16>, lo: nat, mid: nat, hi: nat)
    requires lo <= mid <= hi && 2 * hi <= |raw| + 1
    ensures FallTicks(raw, lo, mid) + FallTicks(raw, mid, hi) == FallTicks(raw, lo, hi)
  {
  }

  /** Carried falls, new falls and new rises merge back into wire order. */
  lemma RingsOrder(raw: seq<U16>, c: Count, c': Count)
    requires c.rises <= c.falls <= c'.falls && c.rises <= c'.rises <= c'.falls
    requires 2 * c'.falls <= |raw| + 1 && 2 * c'.rises <= |raw|
    ensures Order(Polarity(Emitted(c)),
                  FallTicks(raw, Orderable(c), c.falls) + FallTicks(raw, c.falls, c'.falls),
                  RiseTicks(raw, c.rises, c'.rises))
         == Ordered(Stretch(raw, Emitted(c), Emitted(c')), Polarity(Emitted(c')),
                    FallTicks(raw, Orderable(c'), c'.falls))
  {
    var lo, hi := Emitted(c), Emitted(c');
    var m, n := Orderable(c), Orderable(c');
    var edges, rest := Stretch(raw, lo, hi), FallTicks(raw, n, c'.falls);
    StretchAlternates(raw, lo, hi);
    if rest != [] {
      assert hi == 2 * c'.rises + 1;
    }
    OrderInverts(Polarity(lo), edges, rest);
    RingsSplit(raw, c, c');
  }

  lemma RingsSplit(raw: seq<U16>, c: Count, c': Count)
    requires c.rises <= c.falls <= c'.falls && c.rises <= c'.rises <= c'.falls
    requires 2 * c'.falls <= |raw| + 1 && 2 * c'.rises <= |raw|
    ensures var edges := Stretch(raw, Emitted(c), Emitted(c'));
      && Of(edges, Low) + FallTicks(raw, Orderable(c'), c'.falls)
         == FallTicks(raw, Orderable(c), c.falls) + FallTicks(raw, c.falls, c'.falls)
      && Of(edges, High) == RiseTicks(raw, c.rises, c'.rises)
  {
    var m, n := Orderable(c), Orderable(c');
    StretchSplits(raw, Emitted(c), m, c.rises, Emitted(c'), n, c'.rises);
    FallTicksJoin(raw, m, c.falls, c'.falls);
    FallTicksJoin(raw, m, n, c'.falls);
  }

  ghost predicate Advances(truth: seq<int>, c: Count, d: TrueDrain) {
    && Legal(truth, c) && Legal(truth, d.upTo)
    && c.falls <= d.upTo.falls && c.rises <= d.upTo.rises
  }

  ghost function Step(truth: seq<int>, a: Anchor, c: Count, d: TrueDrain): (Anchor, seq<WireEdge>)
    requires Advances(truth, c, d)
  {
    var raw := Ship(truth, c, d);
    Drained(a, raw.now, raw.falls, raw.rises)
  }

  /** On a legal drain the merge is settled: what is left is the chaining. */
  lemma StepOrders(truth: seq<int>, a: Anchor, at: Option<int>, c: Count, d: TrueDrain)
    requires Advances(truth, c, d) && Tracks(a, truth, at, c)
    ensures var step := Step(truth, a, c, d);
      && step.1 == Chain(a.tick, Word(d.now), Stretch(LowBits(truth), Emitted(c), Emitted(d.upTo)))
      && step.0.lead == Polarity(Emitted(d.upTo))
      && step.0.carry == FallTicks(LowBits(truth), Orderable(d.upTo), d.upTo.falls)
      && step.0.tick == (if Emitted(c) < Emitted(d.upTo) then Some(step.1[|step.1| - 1].tick)
                         else if Orderable(d.upTo) < d.upTo.falls then a.tick else Lift(a.tick, Word(d.now)))
  {
    RingsOrder(LowBits(truth), c, d.upTo);
  }

  /** One legal drain emits the next stretch of the truth exactly when that
      stretch is in reach. */
  lemma StepIsTruth(truth: seq<int>, a: Anchor, at: Option<int>, c: Count, d: TrueDrain)
    requires Advances(truth, c, d) && Tracks(a, truth, at, c)
    ensures var lo, hi := Emitted(c), Emitted(d.upTo);
      var out := Step(truth, a, c, d).1;
      |out| == hi - lo && (out == TrueEdges(truth, lo, hi) <==> InReach(truth, at, d.now, lo, hi))
  {
    StepOrders(truth, a, at, c, d);
    ChainIsTruth(truth, a.tick, at, d.now, Emitted(c), Emitted(d.upTo));
  }

  lemma LiftIsTruth(tick: Option<U32>, at: Option<int>, now: int)
    requires Agrees(tick, at)
    ensures Agrees(Lift(tick, Word(now)), LiftTruth(at, now))
  {
    SameWord(Word(now) - ANCHOR_GUARD, now - ANCHOR_GUARD, -(now / PAGE));
    if at.Some? {
      var floor := now - ANCHOR_GUARD;
      SameWord(Word(floor) - Word(at.value), floor - at.value, -(floor / PAGE) + at.value / PAGE);
    }
  }

  /** A drain that emitted the truth leaves the anchor tracking it. */
  lemma StepTracks(truth: seq<int>, a: Anchor, at: Option<int>, c: Count, d: TrueDrain)
    requires Advances(truth, c, d) && Tracks(a, truth, at, c)
    requires Step(truth, a, c, d).1 == TrueEdges(truth, Emitted(c), Emitted(d.upTo))
    ensures Tracks(Step(truth, a, c, d).0, truth, AnchorAfter(truth, at, c, d), d.upTo)
  {
    StepOrders(truth, a, at, c, d);
    LiftIsTruth(a.tick, at, d.now);
  }

  lemma {:induction false} RunEndsLegal(truth: seq<int>, c: Count, drains: seq<TrueDrain>)
    requires LegalRun(truth, c, drains)
    ensures Legal(truth, Last(c, drains)) && Emitted(c) <= Emitted(Last(c, drains)) <= |truth|
    decreases |drains|
  {
    if drains != [] {
      RunEndsLegal(truth, drains[0].upTo, drains[1..]);
    }
  }

  lemma TrueEdgesJoin(truth: seq<int>, lo: nat, mid: nat, hi: nat)
    requires lo <= mid <= hi <= |truth|
    ensures TrueEdges(truth, lo, mid) + TrueEdges(truth, mid, hi) == TrueEdges(truth, lo, hi)
  {
  }

  lemma SplitEqual<T>(x: seq<T>, y: seq<T>, p: seq<T>, q: seq<T>)
    requires |x| == |p|
    ensures x + y == p + q <==> x == p && y == q
  {
    assert (x + y)[..|x|] == x && (p + q)[..|x|] == p;
    assert (x + y)[|x|..] == y && (p + q)[|x|..] == q;
  }

  lemma ShippedStep(truth: seq<int>, a: Anchor, c: Count, drains: seq<TrueDrain>)
    requires drains != [] && LegalRun(truth, c, drains)
    ensures Advances(truth, c, drains[0]) && LegalRun(truth, drains[0].upTo, drains[1..])
    ensures var step := Step(truth, a, c, drains[0]);
      var rest := Run(step.0, Shipped(truth, drains[0].upTo, drains[1..]));
      Run(a, Shipped(truth, c, drains)) == (rest.0, step.1 + rest.1)
  {
    assert LegalRun(truth, drains[0].upTo, drains[1..]);
    assert Shipped(truth, c, drains)[1..] == Shipped(truth, drains[0].upTo, drains[1..]);
  }

  /** The refinement theorem.  For every true timeline and every legal drain
      schedule the concatenated output is the timeline itself (modulo 2^32) up to
      the last orderable edge, if and only if every edge is in reach. */
  lemma {:induction false} TimelineRefined(truth: seq<int>, a: Anchor, at: Option<int>, c: Count,
                                           drains: seq<TrueDrain>)
    requires LegalRun(truth, c, drains) && Tracks(a, truth, at, c)
    ensures Legal(truth, Last(c, drains)) && Emitted(c) <= Emitted(Last(c, drains)) <= |truth|
    ensures Run(a, Shipped(truth, c, drains)).1 == TrueEdges(truth, Emitted(c), Emitted(Last(c, drains)))
       <==> RunInReach(truth, at, c, drains)
    decreases |drains|
  {
    RunEndsLegal(truth, c, drains);
    if drains != [] {
      var d, tail := drains[0], drains[1..];
      ShippedStep(truth, a, c, drains);
      RunEndsLegal(truth, d.upTo, tail);
      StepIsTruth(truth, a, at, c, d);
      var lo, mid, hi := Emitted(c), Emitted(d.upTo), Emitted(Last(c, drains));
      var step := Step(truth, a, c, d);
      var rest := Run(step.0, Shipped(truth, d.upTo, tail));
      TrueEdgesJoin(truth, lo, mid, hi);
      SplitEqual(step.1, rest.1, TrueEdges(truth, lo, mid), TrueEdges(truth, mid, hi));
      assert Last(d.upTo, tail) == Last(c, drains);
      if step.1 == TrueEdges(truth, lo, mid) {
        StepTracks(truth, a, at, c, d);
        TimelineRefined(truth, step.0, AnchorAfter(truth, at, c, d), d.upTo, tail);
      }
    }
  }

  ghost function RunAnchor(truth: seq<int>, at: Option<int>, c: Count, drains: seq<TrueDrain>): Option<int>
    requires LegalRun(truth, c, drains)
    decreases |drains|
  {
    if drains == [] then at
    else
      assert LegalRun(truth, drains[0].upTo, drains[1..]);
      RunAnchor(truth, AnchorAfter(truth, at, c, drains[0]), drains[0].upTo, drains[1..])
  }

  /** After a run in reach the anchor still tracks the truth: in particular the
      carry holds exactly the falls that cannot be ordered yet. */
  lemma {:induction false} RunTracks(truth: seq<int>, a: Anchor, at: Option<int>, c: Count, drains: seq<TrueDrain>)
    requires LegalRun(truth, c, drains) && Tracks(a, truth, at, c) && RunInReach(truth, at, c, drains)
    ensures Legal(truth, Last(c, drains))
    ensures Tracks(Run(a, Shipped(truth, c, drains)).0, truth, RunAnchor(truth, at, c, drains), Last(c, drains))
    decreases |drains|
  {
    RunEndsLegal(truth, c, drains);
    if drains != [] {
      var d, tail := drains[0], drains[1..];
      ShippedStep(truth, a, c, drains);
      StepIsTruth(truth, a, at, c, d);
      StepTracks(truth, a, at, c, d);
      RunTracks(truth, Step(truth, a, c, d).0, AnchorAfter(truth, at, c, d), d.upTo, tail);
      assert Last(d.upTo, tail) == Last(c, drains);
    }
  }

  // ---------------------------------------------------------------------
  // What a prompt host gets
  // ---------------------------------------------------------------------

  ghost predicate Prompt(truth: seq<int>, at: Option<int>, now: int, lo: nat, hi: nat)
    requires lo <= hi <= |truth|
    decreases hi - lo
  {
    lo < hi ==>
      && (match at case None => now - WRAP < truth[lo] <= now case Some(g) => g <= truth[lo] < g + WRAP)
      && Prompt(truth, Some(truth[lo]), now, lo + 1, hi)
  }

  /** No modular arithmetic here: each edge comes less than a wrap after its
      predecessor or after the latest empty drain's floor, no floor passes an
      edge still to come, and no two references are 2^31 - 1 ticks apart. */
  ghost predicate PromptRun(truth: seq<int>, at: Option<int>, c: Count, drains: seq<TrueDrain>)
    requires LegalRun(truth, c, drains)
    decreases |drains|
  {
    drains != [] ==>
      var d := drains[0];
      assert LegalRun(truth, d.upTo, drains[1..]);
      var lo, hi := Emitted(c), Emitted(d.upTo);
      var floor := d.now - ANCHOR_GUARD;
      && Prompt(truth, at, d.now, lo, hi)
      && if lo < hi then PromptRun(truth, Some(truth[hi - 1]), d.upTo, drains[1..])
         else if Orderable(d.upTo) < d.upTo.falls then PromptRun(truth, at, d.upTo, drains[1..])
         else
           && (at.Some? ==> -LIFT_SPAN < floor - at.value < LIFT_SPAN)
           && PromptRun(truth, Some(if at.Some? && floor < at.value then at.value else floor), d.upTo, drains[1..])
  }

  lemma WordOfSmall(x: int)
    ensures 0 <= x < PAGE ==> Word(x) == x
    ensures -PAGE <= x < 0 ==> Word(x) == x + PAGE
  {
    SmallIsItself(x);
    if -PAGE <= x < 0 { SameWord(x, x + PAGE, -1); SmallIsItself(x + PAGE); }
  }

  lemma {:induction false} PromptReaches(truth: seq<int>, at: Option<int>, now: int, lo: nat, hi: nat)
    requires lo <= hi <= |truth| && Prompt(truth, at, now, lo, hi)
    ensures InReach(truth, at, now, lo, hi)
    decreases hi - lo
  {
    if lo < hi {
      WordOfSmall(match at case None => now - truth[lo] case Some(g) => truth[lo] - g);
      PromptReaches(truth, Some(truth[lo]), now, lo + 1, hi);
    }
  }

  /** Within 2^31 - 1 ticks of the anchor a floor lifts it, and never backward. */
  lemma NearLift(at: Option<int>, now: int)
    ensures var floor := now - ANCHOR_GUARD;
      (at.Some? ==> -LIFT_SPAN < floor - at.value < LIFT_SPAN) ==>
        LiftTruth(at, now) == Some(if at.Some? && floor < at.value then at.value else floor)
  {
    if at.Some? {
      WordOfSmall(now - ANCHOR_GUARD - at.value);
    }
  }

  lemma {:induction false} PromptRunReaches(truth: seq<int>, at: Option<int>, c: Count, drains: seq<TrueDrain>)
    requires LegalRun(truth, c, drains) && PromptRun(truth, at, c, drains)
    ensures RunInReach(truth, at, c, drains)
    decreases |drains|
  {
    if drains != [] {
      var d := drains[0];
      PromptReaches(truth, at, d.now, Emitted(c), Emitted(d.upTo));
      NearLift(at, d.now);
      assert LegalRun(truth, d.upTo, drains[1..]);
      PromptRunReaches(truth, AnchorAfter(truth, at, c, d), d.upTo, drains[1..]);
    }
  }

  /** From a capture reset, a prompt host reads the true timeline. */
  lemma PromptHostReadsTruth(truth: seq<int>, drains: seq<TrueDrain>)
    requires LegalRun(truth, Count(0, 0), drains) && PromptRun(truth, None, Count(0, 0), drains)
    ensures var end := Last(Count(0, 0), drains);
      && Legal(truth, end) && Emitted(end) <= |truth|
      && Run(RESET_ANCHOR, Shipped(truth, Count(0, 0), drains)).1 == TrueEdges(truth, 0, Emitted(end))
      && Run(RESET_ANCHOR, Shipped(truth, Count(0, 0), drains)).0.carry
         == FallTicks(LowBits(truth), Orderable(end), end.falls)
  {
    assert Tracks(RESET_ANCHOR, truth, None, Count(0, 0));
    PromptRunReaches(truth, None, Count(0, 0), drains);
    TimelineRefined(truth, RESET_ANCHOR, None, Count(0, 0), drains);
    RunTracks(truth, RESET_ANCHOR, None, Count(0, 0), drains);
  }

  const STALLED_TRUTH: seq<int> := [1000, 0x7FFF_FFFF + 6096]
  const STALLED_EMPTY := TrueDrain(0x7FFF_FFFF + 5096, Count(1, 0))
  const STALLED_LAST := TrueDrain(0x7FFF_FFFF + 7096, Count(1, 1))
  const STALLED_DRAINS: seq<TrueDrain> := [TrueDrain(1500, Count(1, 0)), STALLED_EMPTY, STALLED_LAST]

  lemma StalledIsLegal()
    ensures LegalRun(STALLED_TRUTH, Count(1, 0), [STALLED_LAST])
    ensures LegalRun(STALLED_TRUTH, Count(1, 0), [STALLED_EMPTY, STALLED_LAST])
    ensures LegalRun(STALLED_TRUTH, Count(0, 0), STALLED_DRAINS)
  {
    assert [STALLED_LAST][1..] == [] && LegalRun(STALLED_TRUTH, Count(1, 1), []);
    assert [STALLED_EMPTY, STALLED_LAST][1..] == [STALLED_LAST];
    assert STALLED_DRAINS[1..] == [STALLED_EMPTY, STALLED_LAST];
  }

  lemma StalledAnchor()
    ensures LiftTruth(Some(1000), STALLED_EMPTY.now) == Some(1000)
    ensures !Reaches(Some(1000), STALLED_LAST.now, STALLED_TRUTH[1])
  {
    WordOfSmall(STALLED_EMPTY.now - ANCHOR_GUARD - 1000);
    WordOfSmall(STALLED_TRUTH[1] - 1000);
  }

  lemma StalledTailUnreached()
    ensures LegalRun(STALLED_TRUTH, Count(1, 0), [STALLED_EMPTY, STALLED_LAST])
    ensures !RunInReach(STALLED_TRUTH, Some(1000), Count(1, 0), [STALLED_EMPTY, STALLED_LAST])
  {
    StalledIsLegal();
    StalledAnchor();
    assert !InReach(STALLED_TRUTH, Some(1000), STALLED_LAST.now, 1, 2);
    assert !RunInReach(STALLED_TRUTH, Some(1000), Count(1, 0), [STALLED_LAST]);
    assert [STALLED_EMPTY, STALLED_LAST][1..] == [STALLED_LAST];
  }

  lemma StalledUnreached(truth: seq<int>, drains: seq<TrueDrain>)
    requires truth == STALLED_TRUTH && drains == STALLED_DRAINS
    ensures LegalRun(truth, Count(0, 0), drains) && !RunInReach(truth, None, Count(0, 0), drains)
    ensures Emitted(Last(Count(0, 0), drains)) == 2
  {
    StalledIsLegal();
    StalledTailUnreached();
    assert drains[1..] == [STALLED_EMPTY, STALLED_LAST];
  }

  lemma UnreachedMisread(truth: seq<int>, drains: seq<TrueDrain>)
    requires LegalRun(truth, Count(0, 0), drains) && !RunInReach(truth, None, Count(0, 0), drains)
    ensures Emitted(Last(Count(0, 0), drains)) <= |truth|
    ensures Run(RESET_ANCHOR, Shipped(truth, Count(0, 0), drains)).1
         != TrueEdges(truth, 0, Emitted(Last(Count(0, 0), drains)))
  {
    assert Tracks(RESET_ANCHOR, truth, None, Count(0, 0));
    TimelineRefined(truth, RESET_ANCHOR, None, Count(0, 0), drains);
  }

  /** The 2^31 - 1 bound is needed: after a stall that long an empty drain no
      longer lifts the anchor, and an edge 1000 ticks after that drain's `now`
      is misplaced although the drain landed within a wrap of it. */
  lemma StalledFloorMisplaces(truth: seq<int>, drains: seq<TrueDrain>)
    requires truth == STALLED_TRUTH && drains == STALLED_DRAINS
    ensures LegalRun(truth, Count(0, 0), drains)
    ensures Run(RESET_ANCHOR, Shipped(truth, Count(0, 0), drains)).1 != TrueEdges(truth, 0, 2)
  {
    StalledUnreached(truth, drains);
    UnreachedMisread(truth, drains);
  }
}
