/** How soon the executor of firmware-old/open-servo-runtime/src/executor.rs answers an
accepted op: what one slow tick serves, and a bound in interrupts over every run in which
the host empties the result queue before each slow tick. */
module OpLatency {
  import opened Basics
  import opened Kernel
  import opened Executor
  import opened FixedPoint

  // ---------------------------------------------------------------------
  // One slow tick
  // ---------------------------------------------------------------------

  /** The loop serves until its budget, the ops or the room run out; the op that finds no
      room is applied all the same, and its result stashed. */
  lemma {:induction false} ServeCounts(k: KernelValue, ops: seq<KernelOp>, results: seq<KernelResult>,
                                       cap: nat, budget: nat)
    requires |results| <= cap
    ensures var s := Serve(k, ops, results, cap, budget);
      && |s.log| == Min(budget, Min(|ops|, cap + 1 - |results|))
      && (s.pending.Some? <==> |s.log| == cap + 1 - |results|)
      && |results| <= |s.results| && s.results[..|results|] == results
    decreases budget
  {
    if budget > 0 && ops != [] && |results| < cap {
      var (k', r) := Apply(k, ops[0]);
      ServeCounts(k', ops[1..], results + [r], cap, budget - 1);
      var s := Serve(k', ops[1..], results + [r], cap, budget - 1);
      assert s.results[..|results|] == s.results[..|results| + 1][..|results|] == results;
    }
  }

  lemma PendingCounts(k: KernelValue, pending: Option<KernelResult>, ops: seq<KernelOp>,
                      results: seq<KernelResult>, cap: nat, flushed: seq<KernelResult>)
    requires flushed == results + Opt(pending) && |results| <= cap
    ensures var s := ApplyPending(k, pending, ops, results, cap);
      if |flushed| > cap then s.log == [] && s.ops == ops && s.results == results && s.pending == pending
      else && |s.log| == Min(4, Min(|ops|, cap + 1 - |flushed|))
           && (s.pending.Some? <==> |s.log| == cap + 1 - |flushed|)
           && |flushed| <= |s.results| && s.results[..|flushed|] == flushed
  {
    if |flushed| <= cap {
      ServeCounts(k, ops, flushed, cap, 4);
    }
  }

  /** The tenth fast tick of the fifth medium tick flushes the stash and serves up to four
      ops, fewer only when the ops or the room run out; every other interrupt touches
      neither queue. */
  lemma SlowTickServes(cfg: Config, x: ExecValue, frame: Frame, dt: int, view: ViewValue,
                       ops: seq<KernelOp>, results: seq<KernelResult>, cap: nat)
    requires x.medium < 10 && x.slow < 5 && |results| <= cap
    ensures var a := Adc(cfg, x, frame, dt, view, ops, results, cap);
      var flushed := results + Opt(x.pending);
      if x.medium != 9 || x.slow != 4 || |flushed| > cap then
        a.log == [] && a.ops == ops && a.results == results && a.x.pending == x.pending
      else
        && |a.log| == Min(4, Min(|ops|, cap + 1 - |flushed|))
        && (a.x.pending.Some? <==> |a.log| == cap + 1 - |flushed|)
        && |flushed| <= |a.results| && a.results[..|flushed|] == flushed
        && (|flushed| + |ops| <= cap ==> |a.log| == Min(4, |ops|) && a.x.pending == None)
  {
    if x.medium == 9 && x.slow == 4 {
      var k := Commit(After(cfg, After(cfg, x.k, NewFrame(frame)), Tick(ControlFast, dt)), view).0;
      PendingCounts(k, x.pending, ops, results, cap, results + Opt(x.pending));
    }
  }

  // ---------------------------------------------------------------------
  // Every run
  // ---------------------------------------------------------------------

  ghost predicate SlowDue(s: Sys, e: SysEvent) {
    e.AdcDone? && s.x.medium == 9 && s.x.slow == 4
  }

  /** The host has emptied the result queue before each slow tick. */
  ghost predicate Attentive(cfg: Config, caps: Caps, s: Sys, events: seq<SysEvent>)
    decreases |events|
  {
    events != [] ==>
      && (SlowDue(s, events[0]) ==> s.results == [])
      && Attentive(cfg, caps, Next(cfg, caps, s, events[0]), events[1..])
  }

  /** Results that have reached the result queue. */
  ghost function Answered(s: Sys): nat {
    |s.delivered| + |s.results|
  }

  /** A slow tick on an empty result queue serves as many ops as four and the queue allow,
      and by its end every op applied before it is answered. */
  lemma SlowProgress(cfg: Config, caps: Caps, s: Sys, e: SysEvent)
    requires SlowDue(s, e) && Conserved(caps, s) && caps.results >= 1 && s.results == []
    ensures var n := Next(cfg, caps, s, e);
      && |n.log| >= |s.log| + Min(Min(4, caps.results), |s.ops|)
      && Answered(n) >= |s.log| && n.accepted == s.accepted
  {
    SlowTickServes(cfg, s.x, e.frame, e.dt, e.view, s.ops, s.results, caps.results);
    assert |s.delivered + s.results + Opt(s.x.pending)| == |s.log|;
  }

  /** No event takes anything back. */
  lemma NeverBackward(cfg: Config, caps: Caps, s: Sys, e: SysEvent)
    requires Conserved(caps, s) && Decimated(s)
    ensures var n := Next(cfg, caps, s, e);
      && |n.log| >= |s.log| && Answered(n) >= Answered(s)
      && |s.accepted| <= |n.accepted| && n.accepted[..|s.accepted|] == s.accepted
      && n.slows == s.slows + if SlowDue(s, e) then 1 else 0
  {
    if e.AdcDone? {
      SlowTickServes(cfg, s.x, e.frame, e.dt, e.view, s.ops, s.results, caps.results);
      AdcCounts(cfg, s.x, e.frame, e.dt, e.view, s.ops, s.results, caps.results);
    }
  }

  lemma {:induction false} RunNeverBackward(cfg: Config, caps: Caps, s: Sys, events: seq<SysEvent>)
    requires Conserved(caps, s) && Decimated(s)
    ensures var end := RunSys(cfg, caps, s, events);
      && Answered(end) >= Answered(s)
      && |s.accepted| <= |end.accepted| && end.accepted[..|s.accepted|] == s.accepted
    decreases |events|
  {
    if events != [] {
      var n := Next(cfg, caps, s, events[0]);
      NeverBackward(cfg, caps, s, events[0]);
      NextConserves(cfg, caps, s, events[0]);
      NextDecimates(cfg, caps, s, events[0]);
      RunNeverBackward(cfg, caps, n, events[1..]);
      var end := RunSys(cfg, caps, n, events[1..]);
      assert end.accepted[..|s.accepted|] == end.accepted[..|n.accepted|][..|s.accepted|];
    }
  }

  /** `ticks` slow ticks apply the first `target` ops, and one more answers them. */
  lemma {:induction false} AnsweredWithin(cfg: Config, caps: Caps, s: Sys, events: seq<SysEvent>,
                                          target: nat, ticks: nat)
    requires Conserved(caps, s) && Decimated(s) && caps.results >= 1 && Attentive(cfg, caps, s, events)
    requires target <= |s.accepted| && target <= |s.log| + Times(ticks, Min(4, caps.results))
    requires RunSys(cfg, caps, s, events).slows > s.slows + ticks
    ensures Answered(RunSys(cfg, caps, s, events)) >= target
    decreases |events|
  {
    if events != [] {
      var e := events[0];
      var n := Next(cfg, caps, s, e);
      NeverBackward(cfg, caps, s, e);
      NextConserves(cfg, caps, s, e);
      NextDecimates(cfg, caps, s, e);
      if SlowDue(s, e) {
        SlowProgress(cfg, caps, s, e);
        AllApplied(caps, s);
        if ticks == 0 {
          RunNeverBackward(cfg, caps, n, events[1..]);
        } else {
          AnsweredWithin(cfg, caps, n, events[1..], target, ticks - 1);
        }
      } else {
        AnsweredWithin(cfg, caps, n, events[1..], target, ticks);
      }
    }
  }

  lemma AllApplied(caps: Caps, s: Sys)
    requires Conserved(caps, s)
    ensures |s.log| + |s.ops| == |s.accepted|
  {
    assert |OpsOf(s.log) + s.ops| == |s.accepted|;
  }

  /** The host can always be attentive: collecting until the queue is dry delivers every
      result in it, in order, and changes nothing else. */
  lemma {:induction false} CollectingEmpties(cfg: Config, caps: Caps, s: Sys, events: seq<SysEvent>)
    requires |events| == |s.results| && forall i :: 0 <= i < |events| ==> events[i].Collect?
    ensures RunSys(cfg, caps, s, events) == s.(results := [], delivered := s.delivered + s.results)
    decreases |events|
  {
    if events != [] {
      CollectingEmpties(cfg, caps, Next(cfg, caps, s, events[0]), events[1..]);
      AppendAssoc(s.delivered, [s.results[0]], s.results[1..]);
      assert [s.results[0]] + s.results[1..] == s.results;
    } else {
      assert s.delivered + [] == s.delivered;
    }
  }

  lemma FiftyPerSlow(a: nat, b: nat, ticks: nat)
    requires b >= a + 50 * (ticks + 1)
    ensures b / 50 > a / 50 + ticks
  {
    var q, r := a / 50, a % 50;
    assert b >= 50 * (q + ticks + 1) + r;
  }

  /** Every accepted op is answered: when the host empties the result queue before each
      slow tick, the ops queued now are all delivered, with their results and in order,
      once the host has collected after 50 interrupts for every min(4, queue) of them and
      50 more. */
  lemma OpsAreDelivered(cfg: Config, caps: Caps, s: Sys, events: seq<SysEvent>, ticks: nat)
    requires Conserved(caps, s) && Decimated(s) && caps.results >= 1 && Attentive(cfg, caps, s, events)
    requires |s.ops| <= ticks * Min(4, caps.results)
    requires RunSys(cfg, caps, s, events).fast >= s.fast + 50 * (ticks + 1)
    requires RunSys(cfg, caps, s, events).results == []
    ensures var end := RunSys(cfg, caps, s, events);
      var n := |s.accepted|;
      && n <= |end.delivered| <= |end.log|
      && OpsOf(end.log[..n]) == s.accepted && end.delivered[..n] == ResultsOf(end.log[..n])
  {
    var end := RunSys(cfg, caps, s, events);
    TimesIsProduct(ticks, Min(4, caps.results));
    AllApplied(caps, s);
    RunConserves(cfg, caps, s, events);
    FiftyPerSlow(s.fast, end.fast, ticks);
    AnsweredWithin(cfg, caps, s, events, |s.accepted|, ticks);
    RunNeverBackward(cfg, caps, s, events);
    DeliveredInOrder(caps, end, s.accepted);
  }

  lemma DeliveredInOrder(caps: Caps, s: Sys, ops: seq<KernelOp>)
    requires Conserved(caps, s) && s.results == [] && |ops| <= |s.delivered|
    requires |ops| <= |s.accepted| && s.accepted[..|ops|] == ops
    ensures |s.delivered| <= |s.log|
    ensures OpsOf(s.log[..|ops|]) == ops && s.delivered[..|ops|] == ResultsOf(s.log[..|ops|])
  {
    assert s.delivered + s.results + Opt(s.x.pending) == s.delivered + Opt(s.x.pending) == ResultsOf(s.log);
    assert |s.delivered| <= |ResultsOf(s.log)|;
    forall i | 0 <= i < |ops|
      ensures OpsOf(s.log[..|ops|])[i] == ops[i] && s.delivered[i] == ResultsOf(s.log[..|ops|])[i]
    {
      assert ops[i] == s.accepted[i] == (OpsOf(s.log) + s.ops)[i];
      assert s.delivered[i] == ResultsOf(s.log)[i];
    }
  }
}
