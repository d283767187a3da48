/** The control executor and the main loop of firmware-old/open-servo-runtime/src
(executor.rs, main_loop.rs): tick decimation and the op/result queues between the
ADC interrupt and the main loop. */
module Executor {
  import opened Basics
  import opened FixedPoint
  import opened Kernel

  const MEDIUM_DECIMATE: nat := 10
  const SLOW_DECIMATE: nat := 5
  const MAX_OPS_PER_SLOW: nat := 4

  // ---------------------------------------------------------------------
  // Values
  // ---------------------------------------------------------------------

  datatype ExecValue = ExecValue(k: KernelValue, medium: nat, slow: nat, pending: Option<KernelResult>)

  /** An op as it was applied: the state it met decides its result. */
  datatype Applied = Applied(op: KernelOp, met: KernelValue)

  function ResultOf(a: Applied): KernelResult { Apply(a.met, a.op).1 }

  function ResultsOf(log: seq<Applied>): seq<KernelResult> {
    seq(|log|, i requires 0 <= i < |log| => ResultOf(log[i]))
  }

  function OpsOf(log: seq<Applied>): seq<KernelOp> {
    seq(|log|, i requires 0 <= i < |log| => log[i].op)
  }

  datatype Served = Served(k: KernelValue, ops: seq<KernelOp>, results: seq<KernelResult>,
                           pending: Option<KernelResult>, log: seq<Applied>)

  /** Up to `budget` ops; a result that finds the queue full is stashed. */
  function Serve(k: KernelValue, ops: seq<KernelOp>, results: seq<KernelResult>, cap: nat, budget: nat): Served
    decreases budget
  {
    if budget == 0 || ops == [] then Served(k, ops, results, None, [])
    else
      var (k', r) := Apply(k, ops[0]);
      var a := Applied(ops[0], k);
      if |results| >= cap then Served(k', ops[1..], results, Some(r), [a])
      else
        var s := Serve(k', ops[1..], results + [r], cap, budget - 1);
        s.(log := [a] + s.log)
  }

  /** With `log` applied and the rest to be served, the tick ends at `goal`. */
  ghost predicate Serving(goal: Served, log: seq<Applied>, k: KernelValue, ops: seq<KernelOp>,
                          results: seq<KernelResult>, cap: nat, budget: nat) {
    var s := Serve(k, ops, results, cap, budget);
    goal == s.(log := log + s.log)
  }

  lemma ServingStep(goal: Served, log: seq<Applied>, k: KernelValue, ops: seq<KernelOp>,
                    results: seq<KernelResult>, cap: nat, budget: nat)
    requires Serving(goal, log, k, ops, results, cap, budget)
    ensures budget == 0 || ops == [] ==> goal == Served(k, ops, results, None, log)
    ensures budget > 0 && ops != [] ==>
      var (k', r) := Apply(k, ops[0]);
      var more := log + [Applied(ops[0], k)];
      if |results| >= cap then goal == Served(k', ops[1..], results, Some(r), more)
      else Serving(goal, more, k', ops[1..], results + [r], cap, budget - 1)
  {
    if budget == 0 || ops == [] {
      assert log + [] == log;
    } else if |results| < cap {
      var (k', r) := Apply(k, ops[0]);
      AppendAssoc(log, [Applied(ops[0], k)], Serve(k', ops[1..], results + [r], cap, budget - 1).log);
    }
  }

  function ApplyPending(k: KernelValue, pending: Option<KernelResult>, ops: seq<KernelOp>,
                        results: seq<KernelResult>, cap: nat): Served {
    if pending.Some? && |results| >= cap then Served(k, ops, results, pending, [])
    else Serve(k, ops, results + Opt(pending), cap, MAX_OPS_PER_SLOW)
  }

  function Opt(r: Option<KernelResult>): seq<KernelResult> {
    if r.Some? then [r.value] else []
  }

  // ---------------------------------------------------------------------
  // Objects
  // ---------------------------------------------------------------------

  /** A bounded single-producer single-consumer queue. */
  class Queue<T> {
    const cap: nat
    var items: seq<T>

    constructor (size: nat)
      requires size > 0
      ensures cap == size - 1 && items == []
    {
      cap, items := size - 1, [];
    }

    method Enqueue(x: T) returns (ok: bool)
      modifies this`items
      ensures ok == (|old(items)| < cap)
      ensures items == if ok then old(items) + [x] else old(items)
    {
      ok := |items| < cap;
      if ok { items := items + [x]; }
    }

    method Dequeue() returns (x: Option<T>)
      modifies this`items
      ensures x.None? <==> old(items) == []
      ensures x.Some? ==> old(items) == [x.value] + items
      ensures x.None? ==> items == []
    {
      if items == [] {
        x := None;
      } else {
        x := Some(items[0]);
        items := items[1..];
      }
    }
  }

  class ControlExecutor {
    const kernel: ServoKernel
    var medium: nat
    var slow: nat
    var pending: Option<KernelResult>

    constructor (kernel: ServoKernel)
      ensures this.kernel == kernel && medium == slow == 0 && pending == None
    {
      this.kernel, medium, slow, pending := kernel, 0, 0, None;
    }

    /** The op loop of `apply_pending_ops`. */
    method ServeOps(ops: Queue<KernelOp>, results: Queue<KernelResult>) returns (ghost log: seq<Applied>)
      requires pending == None
      modifies this`pending, kernel, ops`items, results`items
      ensures Served(kernel.Value(), ops.items, results.items, pending, log)
           == Serve(old(kernel.Value()), old(ops.items), old(results.items), results.cap, MAX_OPS_PER_SLOW)
    {
      log := [];
      ghost var goal := Serve(kernel.Value(), ops.items, results.items, results.cap, MAX_OPS_PER_SLOW);
      assert [] + goal.log == goal.log;
      var n := 0;
      while n < MAX_OPS_PER_SLOW
        invariant n <= MAX_OPS_PER_SLOW && pending == None
        invariant Serving(goal, log, kernel.Value(), ops.items, results.items, results.cap, MAX_OPS_PER_SLOW - n)
      {
        ghost var met, left := kernel.Value(), ops.items;
        ServingStep(goal, log, met, left, results.items, results.cap, MAX_OPS_PER_SLOW - n);
        var op := ops.Dequeue();
        if op.None? {
          return;
        }
        assert op.value == left[0] && ops.items == left[1..];
        var result := kernel.ApplyOp(op.value);
        var ok := results.Enqueue(result);
        log := log + [Applied(op.value, met)];
        if !ok {
          pending := Some(result);
          return;
        }
        n := n + 1;
      }
      ServingStep(goal, log, kernel.Value(), ops.items, results.items, results.cap, 0);
    }

    /** `apply_pending_ops`: flush the stashed result first, or stop. */
    method ApplyPendingOps(ops: Queue<KernelOp>, results: Queue<KernelResult>) returns (ghost log: seq<Applied>)
      modifies this`pending, kernel, ops`items, results`items
      ensures Served(kernel.Value(), ops.items, results.items, pending, log)
           == ApplyPending(old(kernel.Value()), old(pending), old(ops.items), old(results.items), results.cap)
    {
      log := [];
      if pending.Some? {
        var r := pending.value;
        pending := None;
        var ok := results.Enqueue(r);
        if !ok {
          pending := Some(r);
          return;
        }
      }
      assert results.items == old(results.items) + Opt(old(pending));
      log := ServeOps(ops, results);
    }

    /** `on_adc_complete`: one fast tick, and the decimated medium and slow ones.  A
        medium tick leaves the table as `published`: what the kernel's telemetry and
        the facade write into it is left open. */
    method OnAdcComplete(frame: Frame, dt: int, ops: Queue<KernelOp>, results: Queue<KernelResult>, view: View,
                         published: seq<Byte>)
      returns (cmd: MotorCommand, ghost log: seq<Applied>)
      requires medium < MEDIUM_DECIMATE && slow < SLOW_DECIMATE
      modifies this, kernel, ops`items, results`items, view
      ensures medium < MEDIUM_DECIMATE && slow < SLOW_DECIMATE
      ensures var a := Adc(kernel.cfg, ExecValue(old(kernel.Value()), old(medium), old(slow), old(pending)), frame, dt,
                           old(view.Value()), old(ops.items), old(results.items), results.cap);
        && ExecValue(kernel.Value(), medium, slow, pending) == a.x && ops.items == a.ops && results.items == a.results
        && view.dirty == a.view.dirty && log == a.log
        && view.bytes == (if a.mediums == 1 then published else old(view.bytes))
      ensures cmd == FastTick(kernel.cfg, After(kernel.cfg, old(kernel.Value()), NewFrame(frame)).st, dt).1
    {
      log := [];
      kernel.UpdateFrame(frame);
      cmd := kernel.TickFast(dt);
      medium := medium + 1;
      if medium >= MEDIUM_DECIMATE {
        medium := 0;
        var _ := kernel.CommitShadow(view);
        view.bytes := published;
        slow := slow + 1;
        if slow >= SLOW_DECIMATE {
          slow := 0;
          log := ApplyPendingOps(ops, results);
        }
      }
    }
  }

  /** One interrupt on values; `mediums` and `slows` count the ticks it ran. */
  datatype Interrupt = Interrupt(x: ExecValue, ops: seq<KernelOp>, results: seq<KernelResult>, view: ViewValue,
                                 log: seq<Applied>, mediums: nat, slows: nat)

  function Adc(cfg: Config, x: ExecValue, frame: Frame, dt: int, view: ViewValue,
               ops: seq<KernelOp>, results: seq<KernelResult>, cap: nat): Interrupt {
    var k := After(cfg, After(cfg, x.k, NewFrame(frame)), Tick(ControlFast, dt));
    if x.medium + 1 < MEDIUM_DECIMATE then Interrupt(x.(k := k, medium := x.medium + 1), ops, results, view, [], 0, 0)
    else
      var (k2, v, _) := Commit(k, view);
      if x.slow + 1 < SLOW_DECIMATE then Interrupt(ExecValue(k2, 0, x.slow + 1, x.pending), ops, results, v, [], 1, 0)
      else
        var s := ApplyPending(k2, x.pending, ops, results, cap);
        Interrupt(ExecValue(s.k, 0, 0, s.pending), s.ops, s.results, v, s.log, 1, 1)
  }

  // ---------------------------------------------------------------------
  // The main loop
  // ---------------------------------------------------------------------

  /** The protocol service: bytes in, wanted ops out, results back.  What a byte
      makes it want is its own business. */
  class CommsService {
    var wanted: seq<KernelOp>
    var answers: seq<KernelResult>

    method IngestRxByte(b: Byte)
      modifies this`wanted
      ensures |old(wanted)| <= |wanted| && wanted[..|old(wanted)|] == old(wanted)
    {
    }

    method NextOp() returns (op: Option<KernelOp>)
      modifies this`wanted
      ensures op.None? <==> old(wanted) == []
      ensures op.Some? ==> old(wanted) == [op.value] + wanted
      ensures op.None? ==> wanted == []
    {
      if wanted == [] {
        op := None;
      } else {
        op := Some(wanted[0]);
        wanted := wanted[1..];
      }
    }

    method PushResult(r: KernelResult)
      modifies this`answers
      ensures answers == old(answers) + [r]
    {
      answers := answers + [r];
    }
  }

  function Busies(n: nat): seq<KernelResult> {
    seq(n, _ => ResultBusy)
  }

  /** The first loop of `parse_and_enqueue`. */
  method DrainBytes(rx: Queue<Byte>, parser: CommsService)
    modifies rx`items, parser`wanted
    ensures rx.items == [] && |old(parser.wanted)| <= |parser.wanted|
    ensures parser.wanted[..|old(parser.wanted)|] == old(parser.wanted)
  {
    while true
      invariant |old(parser.wanted)| <= |parser.wanted| && parser.wanted[..|old(parser.wanted)|] == old(parser.wanted)
      decreases |rx.items|
    {
      var byte := rx.Dequeue();
      if byte.None? {
        break;
      }
      parser.IngestRxByte(byte.value);
    }
  }

  lemma BusiesNext(answers: seq<KernelResult>, n: nat)
    ensures (answers + Busies(n)) + [ResultBusy] == answers + Busies(n + 1)
  {
  }

  /** The second loop: ops that fit are queued in order, and each one that does not fit
      is answered Busy at once. */
  method EnqueueOps(ops: Queue<KernelOp>, parser: CommsService) returns (enqueued: Option<nat>)
    requires |ops.items| <= ops.cap
    modifies ops`items, parser
    ensures parser.wanted == []
    ensures var wanted := old(parser.wanted);
      var fit := Min(|wanted|, ops.cap - |old(ops.items)|);
      && ops.items == old(ops.items) + wanted[..fit]
      && parser.answers == old(parser.answers) + Busies(|wanted| - fit)
      && enqueued == if fit == |wanted| then Some(fit) else None
  {
    ghost var wanted, taken, room := parser.wanted, 0, ops.cap - |ops.items|;
    var count: nat, hadFull := 0, false;
    assert parser.answers == old(parser.answers) + Busies(0);
    while true
      invariant 0 <= taken <= |wanted| && parser.wanted == wanted[taken..]
      invariant count == Min(taken, room) && hadFull == (taken > room)
      invariant ops.items == old(ops.items) + wanted[..count]
      invariant parser.answers == old(parser.answers) + Busies(taken - count)
      decreases |parser.wanted|
    {
      var op := parser.NextOp();
      if op.None? {
        break;
      }
      assert op.value == wanted[taken] && parser.wanted == wanted[taken + 1..];
      var ok := ops.Enqueue(op.value);
      if ok {
        assert count == taken;
        AppendAssoc(old(ops.items), wanted[..taken], [wanted[taken]]);
        assert wanted[..taken] + [wanted[taken]] == wanted[..taken + 1];
        count := count + 1;
      } else {
        BusiesNext(old(parser.answers), taken - count);
        parser.PushResult(ResultBusy);
        hadFull := true;
      }
      taken := taken + 1;
    }
    enqueued := if hadFull then None else Some(count);
  }

  /** `parse_and_enqueue`. */
  method ParseAndEnqueue(rx: Queue<Byte>, ops: Queue<KernelOp>, parser: CommsService)
    returns (enqueued: Option<nat>, ghost wanted: seq<KernelOp>)
    requires |ops.items| <= ops.cap
    modifies rx`items, ops`items, parser
    ensures rx.items == [] && parser.wanted == []
    ensures |old(parser.wanted)| <= |wanted| && wanted[..|old(parser.wanted)|] == old(parser.wanted)
    ensures var fit := Min(|wanted|, ops.cap - |old(ops.items)|);
      && ops.items == old(ops.items) + wanted[..fit]
      && parser.answers == old(parser.answers) + Busies(|wanted| - fit)
      && enqueued == if fit == |wanted| then Some(fit) else None
  {
    DrainBytes(rx, parser);
    wanted := parser.wanted;
    enqueued := EnqueueOps(ops, parser);
  }

  /** `drain_and_respond`. */
  method DrainAndRespond(results: Queue<KernelResult>, responder: CommsService) returns (processed: nat)
    modifies results`items, responder`answers
    ensures results.items == [] && processed == |old(results.items)|
    ensures responder.answers == old(responder.answers) + old(results.items)
  {
    processed := 0;
    while true
      invariant processed + |results.items| == |old(results.items)|
      invariant responder.answers + results.items == old(responder.answers) + old(results.items)
      decreases |results.items|
    {
      var r := results.Dequeue();
      if r.None? {
        break;
      }
      responder.PushResult(r.value);
      processed := processed + 1;
    }
  }

  // ---------------------------------------------------------------------
  // Every interleaving
  // ---------------------------------------------------------------------

  /** The executor between its two queues, with the history of what crossed them. */
  datatype Sys = Sys(
    x: ExecValue, ops: seq<KernelOp>, results: seq<KernelResult>,
    accepted: seq<KernelOp>, refused: nat, log: seq<Applied>, delivered: seq<KernelResult>,
    fast: nat, mediums: nat, slows: nat)

  datatype Caps = Caps(ops: nat, results: nat)

  /** `Submit` and `Collect` are one critical section each: an interrupt may come
      between any two enqueues or dequeues of the main loop. */
  datatype SysEvent = AdcDone(frame: Frame, dt: int, view: ViewValue) | Submit(op: KernelOp) | Collect

  function BootSys(cfg: Config): Sys {
    Sys(ExecValue(Booted(cfg), 0, 0, None), [], [], [], 0, [], [], 0, 0, 0)
  }

  function Next(cfg: Config, caps: Caps, s: Sys, e: SysEvent): Sys {
    match e
    case AdcDone(frame, dt, view) =>
      var a := Adc(cfg, s.x, frame, dt, view, s.ops, s.results, caps.results);
      s.(x := a.x, ops := a.ops, results := a.results, log := s.log + a.log,
         fast := s.fast + 1, mediums := s.mediums + a.mediums, slows := s.slows + a.slows)
    case Submit(op) =>
      if |s.ops| < caps.ops then s.(ops := s.ops + [op], accepted := s.accepted + [op])
      else s.(refused := s.refused + 1)
    case Collect =>
      if s.results == [] then s else s.(delivered := s.delivered + [s.results[0]], results := s.results[1..])
  }

  function RunSys(cfg: Config, caps: Caps, s: Sys, events: seq<SysEvent>): Sys
    decreases |events|
  {
    if events == [] then s else RunSys(cfg, caps, Next(cfg, caps, s, events[0]), events[1..])
  }

  /** Nothing is lost, repeated or reordered: the results handed over, queued and
      stashed are those of the ops applied, and those ops followed by the ones still
      queued are the ops accepted. */
  ghost predicate Conserved(caps: Caps, s: Sys) {
    && s.delivered + s.results + Opt(s.x.pending) == ResultsOf(s.log)
    && OpsOf(s.log) + s.ops == s.accepted
    && |s.results| <= caps.results && |s.ops| <= caps.ops
  }

  /** Decimation: the counters are the tick count's digits. */
  ghost predicate Decimated(s: Sys) {
    && s.mediums == s.fast / 10 && s.slows == s.fast / 50
    && s.x.medium == s.fast % 10 && s.x.slow == s.fast / 10 % 5
  }

  lemma {:induction false} ServeKeepsResults(k: KernelValue, ops: seq<KernelOp>, results: seq<KernelResult>,
                                             cap: nat, budget: nat)
    requires |results| <= cap
    ensures var s := Serve(k, ops, results, cap, budget);
      s.results + Opt(s.pending) == results + ResultsOf(s.log) && |s.results| <= cap && |s.log| <= budget
    decreases budget
  {
    if budget > 0 && ops != [] {
      var a := Applied(ops[0], k);
      var r := ResultOf(a);
      if |results| < cap {
        var next := Serve(Apply(k, ops[0]).0, ops[1..], results + [r], cap, budget - 1);
        ServeKeepsResults(Apply(k, ops[0]).0, ops[1..], results + [r], cap, budget - 1);
        LogCons(a, next.log);
        assert results + ([r] + ResultsOf(next.log)) == (results + [r]) + ResultsOf(next.log);
      } else {
        LogCons(a, []);
        assert [a] + [] == [a] && ResultsOf([]) == [];
      }
    } else {
      assert ResultsOf([]) == [] && results + [] == results;
    }
  }

  lemma {:induction false} ServeKeepsOps(k: KernelValue, ops: seq<KernelOp>, results: seq<KernelResult>,
                                         cap: nat, budget: nat)
    ensures var s := Serve(k, ops, results, cap, budget); OpsOf(s.log) + s.ops == ops
    decreases budget
  {
    if budget > 0 && ops != [] {
      var a := Applied(ops[0], k);
      var r := ResultOf(a);
      assert ops == [ops[0]] + ops[1..];
      if |results| < cap {
        var next := Serve(Apply(k, ops[0]).0, ops[1..], results + [r], cap, budget - 1);
        ServeKeepsOps(Apply(k, ops[0]).0, ops[1..], results + [r], cap, budget - 1);
        LogCons(a, next.log);
      } else {
        LogCons(a, []);
        assert [a] + [] == [a] && OpsOf([]) == [];
      }
    } else {
      assert OpsOf([]) == [] && [] + ops == ops;
    }
  }

  /** The logged ops met the kernel one after the other, and left it as it is. */
  ghost predicate Threads(k: KernelValue, log: seq<Applied>, end: KernelValue)
    decreases |log|
  {
    if log == [] then k == end else log[0].met == k && Threads(Apply(k, log[0].op).0, log[1..], end)
  }

  lemma {:induction false} ServeThreads(k: KernelValue, ops: seq<KernelOp>, results: seq<KernelResult>,
                                        cap: nat, budget: nat)
    ensures var s := Serve(k, ops, results, cap, budget); Threads(k, s.log, s.k)
    decreases budget
  {
    if budget > 0 && ops != [] {
      var (k', r) := Apply(k, ops[0]);
      var a := Applied(ops[0], k);
      if |results| < cap {
        ServeThreads(k', ops[1..], results + [r], cap, budget - 1);
        var next := Serve(k', ops[1..], results + [r], cap, budget - 1);
        assert ([a] + next.log)[1..] == next.log;
      } else {
        assert [a][1..] == [];
      }
    }
  }

  lemma LogCons(a: Applied, log: seq<Applied>)
    ensures ResultsOf([a] + log) == [ResultOf(a)] + ResultsOf(log)
    ensures OpsOf([a] + log) == [a.op] + OpsOf(log)
  {
  }

  lemma LogAppend(a: seq<Applied>, b: seq<Applied>)
    ensures ResultsOf(a + b) == ResultsOf(a) + ResultsOf(b)
    ensures OpsOf(a + b) == OpsOf(a) + OpsOf(b)
  {
  }

  /** One interrupt conserves; a stuck result blocks the op queue; and a slow tick
      applies at most four ops. */
  lemma AdcConserves(cfg: Config, x: ExecValue, frame: Frame, dt: int, view: ViewValue,
                     ops: seq<KernelOp>, results: seq<KernelResult>, cap: nat)
    requires |results| <= cap
    ensures var a := Adc(cfg, x, frame, dt, view, ops, results, cap);
      && a.results + Opt(a.x.pending) == results + Opt(x.pending) + ResultsOf(a.log)
      && OpsOf(a.log) + a.ops == ops
      && |a.results| <= cap && |a.log| <= MAX_OPS_PER_SLOW
      && (x.pending.Some? && |results| == cap ==>
            a.ops == ops && a.results == results && a.x.pending == x.pending && a.log == [])
  {
    var a := Adc(cfg, x, frame, dt, view, ops, results, cap);
    assert ResultsOf([]) == [] && OpsOf([]) == [] && [] + ops == ops;
    assert results + Opt(x.pending) + [] == results + Opt(x.pending);
    if a.slows == 1 && !(x.pending.Some? && |results| >= cap) {
      var k := Commit(After(cfg, After(cfg, x.k, NewFrame(frame)), Tick(ControlFast, dt)), view).0;
      ServeKeepsResults(k, ops, results + Opt(x.pending), cap, MAX_OPS_PER_SLOW);
      ServeKeepsOps(k, ops, results + Opt(x.pending), cap, MAX_OPS_PER_SLOW);
    }
  }

  lemma InterruptConserves(cfg: Config, caps: Caps, s: Sys, e: SysEvent)
    requires e.AdcDone? && Conserved(caps, s)
    ensures Conserved(caps, Next(cfg, caps, s, e))
  {
    var a := Adc(cfg, s.x, e.frame, e.dt, e.view, s.ops, s.results, caps.results);
    AdcConserves(cfg, s.x, e.frame, e.dt, e.view, s.ops, s.results, caps.results);
    LogAppend(s.log, a.log);
    Rejoin(s.delivered, s.results, Opt(s.x.pending), ResultsOf(s.log), a.results, Opt(a.x.pending), ResultsOf(a.log));
    AppendAssoc(OpsOf(s.log), OpsOf(a.log), a.ops);
  }

  lemma NextConserves(cfg: Config, caps: Caps, s: Sys, e: SysEvent)
    requires Conserved(caps, s)
    ensures Conserved(caps, Next(cfg, caps, s, e))
  {
    match e
    case AdcDone(_, _, _) => InterruptConserves(cfg, caps, s, e);
    case Submit(op) =>
      AppendAssoc(OpsOf(s.log), s.ops, [op]);
    case Collect =>
      if s.results != [] {
        AppendAssoc(s.delivered, [s.results[0]], s.results[1..]);
        assert [s.results[0]] + s.results[1..] == s.results;
      }
  }

  lemma Rejoin(d: seq<KernelResult>, q: seq<KernelResult>, p: seq<KernelResult>, all: seq<KernelResult>,
               q': seq<KernelResult>, p': seq<KernelResult>, more: seq<KernelResult>)
    requires d + q + p == all && q' + p' == q + p + more
    ensures d + q' + p' == all + more
  {
    assert d + q' + p' == d + (q' + p');
    assert d + (q + p + more) == (d + q + p) + more;
  }

  lemma Digits(n: nat)
    ensures n % 10 < 9 ==> (n + 1) / 10 == n / 10 && (n + 1) % 10 == n % 10 + 1 && (n + 1) / 50 == n / 50
    ensures n % 10 == 9 ==> (n + 1) / 10 == n / 10 + 1 && (n + 1) % 10 == 0
    ensures n % 10 == 9 && n / 10 % 5 < 4 ==> (n + 1) / 10 % 5 == n / 10 % 5 + 1 && (n + 1) / 50 == n / 50
    ensures n % 10 == 9 && n / 10 % 5 == 4 ==> (n + 1) / 10 % 5 == 0 && (n + 1) / 50 == n / 50 + 1
  {
    var q, r := n / 10, n % 10;
    assert n == 10 * q + r;
    Fifty(q, r);
    if r < 9 {
      Fifty(q, r + 1);
      assert n + 1 == 10 * q + (r + 1);
    } else {
      Fifty(q + 1, 0);
      assert n + 1 == 10 * (q + 1);
    }
  }

  lemma Fifty(q: nat, r: nat)
    requires r < 10
    ensures (10 * q + r) / 10 == q && (10 * q + r) % 10 == r && (10 * q + r) / 50 == q / 5
  {
    var a, b := q / 5, q % 5;
    assert 10 * q + r == 50 * a + (10 * b + r) && 10 * b + r < 50;
  }

  lemma AdcCounts(cfg: Config, x: ExecValue, frame: Frame, dt: int, view: ViewValue,
                  ops: seq<KernelOp>, results: seq<KernelResult>, cap: nat)
    requires x.medium < 10 && x.slow < 5
    ensures var a := Adc(cfg, x, frame, dt, view, ops, results, cap);
      && a.mediums == (if x.medium == 9 then 1 else 0)
      && a.slows == (if x.medium == 9 && x.slow == 4 then 1 else 0)
      && a.x.medium == (if x.medium == 9 then 0 else x.medium + 1)
      && a.x.slow == (if x.medium < 9 then x.slow else if x.slow == 4 then 0 else x.slow + 1)
  {
  }

  lemma NextDecimates(cfg: Config, caps: Caps, s: Sys, e: SysEvent)
    requires Decimated(s)
    ensures Decimated(Next(cfg, caps, s, e))
  {
    if e.AdcDone? {
      AdcCounts(cfg, s.x, e.frame, e.dt, e.view, s.ops, s.results, caps.results);
      Digits(s.fast);
    }
  }

  /** In every interleaving of interrupts, submissions and collections, with any
      queue sizes: every accepted op is answered once and in order, and n fast ticks
      run exactly n / 10 medium and n / 50 slow ticks. */
  lemma {:induction false} RunConserves(cfg: Config, caps: Caps, s: Sys, events: seq<SysEvent>)
    requires Conserved(caps, s) && Decimated(s)
    ensures Conserved(caps, RunSys(cfg, caps, s, events)) && Decimated(RunSys(cfg, caps, s, events))
    decreases |events|
  {
    if events != [] {
      NextConserves(cfg, caps, s, events[0]);
      NextDecimates(cfg, caps, s, events[0]);
      RunConserves(cfg, caps, Next(cfg, caps, s, events[0]), events[1..]);
    }
  }

  lemma BootConserved(cfg: Config, caps: Caps)
    ensures Conserved(caps, BootSys(cfg)) && Decimated(BootSys(cfg))
  {
  }

  /** The client submits only while fewer than k ops it sent are unanswered. */
  predicate Polite(cfg: Config, caps: Caps, s: Sys, events: seq<SysEvent>, k: nat)
    decreases |events|
  {
    events != [] ==>
      && (events[0].Submit? ==> |s.accepted| < |s.delivered| + k)
      && Polite(cfg, caps, Next(cfg, caps, s, events[0]), events[1..], k)
  }

  /** With at most k ops outstanding, and room for k in both queues, nothing is refused
      and no result is ever stashed. */
  lemma {:induction false} PoliteNeverRefused(cfg: Config, caps: Caps, s: Sys, events: seq<SysEvent>, k: nat)
    requires k <= caps.ops && k <= caps.results
    requires Conserved(caps, s) && |s.accepted| <= |s.delivered| + k && s.x.pending == None
    requires Polite(cfg, caps, s, events, k)
    ensures var end := RunSys(cfg, caps, s, events);
      end.refused == s.refused && end.x.pending == None && |end.accepted| <= |end.delivered| + k
    decreases |events|
  {
    if events != [] {
      var n := Next(cfg, caps, s, events[0]);
      NextConserves(cfg, caps, s, events[0]);
      Outstanding(caps, s);
      Outstanding(caps, n);
      if events[0].AdcDone? {
        FewInFlight(cfg, caps, s, events[0]);
      }
      PoliteNeverRefused(cfg, caps, n, events[1..], k);
    }
  }

  /** Ops accepted but not yet answered are queued, stashed or in the result queue. */
  lemma Outstanding(caps: Caps, s: Sys)
    requires Conserved(caps, s)
    ensures |s.accepted| == |s.delivered| + |s.results| + |Opt(s.x.pending)| + |s.ops|
  {
    assert |s.delivered + s.results + Opt(s.x.pending)| == |ResultsOf(s.log)| == |s.log| == |OpsOf(s.log)|;
  }

  lemma FewInFlight(cfg: Config, caps: Caps, s: Sys, e: SysEvent)
    requires e.AdcDone? && s.x.pending == None && |s.results| + |s.ops| <= caps.results
    ensures Next(cfg, caps, s, e).x.pending == None
  {
    var k := Commit(After(cfg, After(cfg, s.x.k, NewFrame(e.frame)), Tick(ControlFast, e.dt)), e.view).0;
    assert s.results + Opt(None) == s.results;
    ServeFits(k, s.ops, s.results, caps.results, MAX_OPS_PER_SLOW);
  }

  lemma {:induction false} ServeFits(k: KernelValue, ops: seq<KernelOp>, results: seq<KernelResult>,
                                     cap: nat, budget: nat)
    requires |results| + |ops| <= cap
    ensures Serve(k, ops, results, cap, budget).pending == None
    decreases budget
  {
    if budget > 0 && ops != [] {
      var (k', r) := Apply(k, ops[0]);
      ServeFits(k', ops[1..], results + [r], cap, budget - 1);
    }
  }

  // ---------------------------------------------------------------------
  // The kernel inside the executor
  // ---------------------------------------------------------------------

  function OpEvents(log: seq<Applied>): seq<Event> {
    if log == [] then [] else [Op(log[0].op)] + OpEvents(log[1..])
  }

  /** What one system event makes happen to the kernel, in order. */
  function KernelEvents(cfg: Config, caps: Caps, s: Sys, e: SysEvent): seq<Event> {
    if !e.AdcDone? then []
    else
      var a := Adc(cfg, s.x, e.frame, e.dt, e.view, s.ops, s.results, caps.results);
      [NewFrame(e.frame), Tick(ControlFast, e.dt)]
      + (if a.mediums == 1 then [Tick(ControlMedium, 10 * e.dt), Shadow(e.view)] else [])
      + (if a.slows == 1 then [Tick(ControlSlow, 50 * e.dt)] + OpEvents(a.log) else [])
  }

  function Trace(cfg: Config, caps: Caps, s: Sys, events: seq<SysEvent>): seq<Event>
    decreases |events|
  {
    if events == [] then []
    else KernelEvents(cfg, caps, s, events[0]) + Trace(cfg, caps, Next(cfg, caps, s, events[0]), events[1..])
  }

  /** The ops of a kernel run, each with the kernel it meets. */
  function Replay(cfg: Config, k: KernelValue, trace: seq<Event>): seq<Applied>
    decreases |trace|
  {
    if trace == [] then []
    else (if trace[0].Op? then [Applied(trace[0].op, k)] else []) + Replay(cfg, After(cfg, k, trace[0]), trace[1..])
  }

  lemma {:induction false} RunJoin(cfg: Config, k: KernelValue, a: seq<Event>, b: seq<Event>)
    ensures RunOn(cfg, k, a + b) == RunOn(cfg, RunOn(cfg, k, a), b)
    ensures Replay(cfg, k, a + b) == Replay(cfg, k, a) + Replay(cfg, RunOn(cfg, k, a), b)
    decreases |a|
  {
    if a == [] {
      assert a + b == b;
    } else {
      var n := After(cfg, k, a[0]);
      assert (a + b)[0] == a[0] && (a + b)[1..] == a[1..] + b;
      RunJoin(cfg, n, a[1..], b);
      var own := if a[0].Op? then [Applied(a[0].op, k)] else [];
      AppendAssoc(own, Replay(cfg, n, a[1..]), Replay(cfg, RunOn(cfg, n, a[1..]), b));
    }
  }

  lemma {:induction false} ThreadsReplay(cfg: Config, k: KernelValue, log: seq<Applied>, end: KernelValue)
    requires Threads(k, log, end)
    ensures RunOn(cfg, k, OpEvents(log)) == end && Replay(cfg, k, OpEvents(log)) == log
    decreases |log|
  {
    if log != [] {
      var events := OpEvents(log);
      assert events[0] == Op(log[0].op) && events[1..] == OpEvents(log[1..]);
      ThreadsReplay(cfg, After(cfg, k, events[0]), log[1..], end);
      assert log == [log[0]] + log[1..];
    }
  }

  lemma RunOne(cfg: Config, k: KernelValue, e: Event)
    ensures RunOn(cfg, k, [e]) == After(cfg, k, e)
    ensures Replay(cfg, k, [e]) == if e.Op? then [Applied(e.op, k)] else []
  {
    assert [e][1..] == [];
  }

  /** Two events that are not ops. */
  lemma RunTwo(cfg: Config, k: KernelValue, e: Event, f: Event)
    requires !e.Op? && !f.Op?
    ensures RunOn(cfg, k, [e, f]) == After(cfg, After(cfg, k, e), f) && Replay(cfg, k, [e, f]) == []
  {
    assert [e, f] == [e] + [f];
    RunJoin(cfg, k, [e], [f]);
    RunOne(cfg, k, e);
    RunOne(cfg, After(cfg, k, e), f);
  }

  lemma SlowReplays(cfg: Config, k: KernelValue, dt: int, log: seq<Applied>, end: KernelValue)
    requires Threads(k, log, end)
    ensures var trace := [Tick(ControlSlow, dt)] + OpEvents(log);
      RunOn(cfg, k, trace) == end && Replay(cfg, k, trace) == log
  {
    RunJoin(cfg, k, [Tick(ControlSlow, dt)], OpEvents(log));
    RunOne(cfg, k, Tick(ControlSlow, dt));
    ThreadsReplay(cfg, k, log, end);
    assert [] + log == log;
  }

  /** One interrupt is that run of the kernel, and its log is that run's ops. */
  lemma InterruptReplays(cfg: Config, caps: Caps, s: Sys, e: SysEvent)
    requires e.AdcDone?
    ensures var a := Adc(cfg, s.x, e.frame, e.dt, e.view, s.ops, s.results, caps.results);
      var trace := KernelEvents(cfg, caps, s, e);
      RunOn(cfg, s.x.k, trace) == a.x.k && Replay(cfg, s.x.k, trace) == a.log
  {
    var a := Adc(cfg, s.x, e.frame, e.dt, e.view, s.ops, s.results, caps.results);
    var fast := [NewFrame(e.frame), Tick(ControlFast, e.dt)];
    var medium := if a.mediums == 1 then [Tick(ControlMedium, 10 * e.dt), Shadow(e.view)] else [];
    var slow := if a.slows == 1 then [Tick(ControlSlow, 50 * e.dt)] + OpEvents(a.log) else [];
    var k := After(cfg, After(cfg, s.x.k, NewFrame(e.frame)), Tick(ControlFast, e.dt));
    var k2 := if a.mediums == 1 then Commit(k, e.view).0 else k;
    RunTwo(cfg, s.x.k, NewFrame(e.frame), Tick(ControlFast, e.dt));
    if a.mediums == 1 {
      RunTwo(cfg, k, Tick(ControlMedium, 10 * e.dt), Shadow(e.view));
    }
    if a.slows == 1 {
      PendingThreads(k2, s.x.pending, s.ops, s.results, caps.results);
      SlowReplays(cfg, k2, 50 * e.dt, a.log, a.x.k);
    }
    assert RunOn(cfg, k2, slow) == a.x.k && Replay(cfg, k2, slow) == a.log;
    JoinThree(cfg, s.x.k, fast, medium, slow);
  }

  lemma PendingThreads(k: KernelValue, pending: Option<KernelResult>, ops: seq<KernelOp>,
                       results: seq<KernelResult>, cap: nat)
    ensures var s := ApplyPending(k, pending, ops, results, cap); Threads(k, s.log, s.k)
  {
    ServeThreads(k, ops, results + Opt(pending), cap, MAX_OPS_PER_SLOW);
  }

  lemma JoinThree(cfg: Config, k: KernelValue, a: seq<Event>, b: seq<Event>, c: seq<Event>)
    requires Replay(cfg, k, a) == [] && Replay(cfg, RunOn(cfg, k, a), b) == []
    ensures var n := RunOn(cfg, RunOn(cfg, k, a), b);
      RunOn(cfg, k, a + b + c) == RunOn(cfg, n, c) && Replay(cfg, k, a + b + c) == Replay(cfg, n, c)
  {
    RunJoin(cfg, k, a + b, c);
    RunJoin(cfg, k, a, b);
    var n := RunOn(cfg, RunOn(cfg, k, a), b);
    assert [] + [] + Replay(cfg, n, c) == Replay(cfg, n, c);
  }

  /** The executor drives the kernel through a run of its own: after any interleaving
      the kernel is `RunOn` of the frames, ticks, commits and applied ops in order, and
      the log is the ops of that run with the kernel each of them met. */
  lemma {:induction false} RunReplays(cfg: Config, caps: Caps, s: Sys, events: seq<SysEvent>)
    ensures var end := RunSys(cfg, caps, s, events);
      var trace := Trace(cfg, caps, s, events);
      end.x.k == RunOn(cfg, s.x.k, trace) && end.log == s.log + Replay(cfg, s.x.k, trace)
    decreases |events|
  {
    if events == [] {
      assert s.log + [] == s.log;
    } else {
      var n := Next(cfg, caps, s, events[0]);
      var head, tail := KernelEvents(cfg, caps, s, events[0]), Trace(cfg, caps, n, events[1..]);
      if events[0].AdcDone? {
        InterruptReplays(cfg, caps, s, events[0]);
      } else {
        assert s.log + [] == s.log;
      }
      RunReplays(cfg, caps, n, events[1..]);
      RunJoin(cfg, s.x.k, head, tail);
      AppendAssoc(s.log, Replay(cfg, s.x.k, head), Replay(cfg, n.x.k, tail));
    }
  }

  /** From boot: every result ever delivered, queued or stashed is `apply_op` of its op
      on the kernel that the run before it left. */
  lemma ResultsReplayKernel(cfg: Config, caps: Caps, boot: Sys, events: seq<SysEvent>)
    requires boot == BootSys(cfg)
    ensures var end := RunSys(cfg, caps, boot, events);
      var trace := Trace(cfg, caps, boot, events);
      && end.x.k == RunOn(cfg, boot.x.k, trace)
      && end.delivered + end.results + Opt(end.x.pending) == ResultsOf(Replay(cfg, boot.x.k, trace))
      && OpsOf(Replay(cfg, boot.x.k, trace)) + end.ops == end.accepted
  {
    BootConserved(cfg, caps);
    ReplayFrom(cfg, caps, boot, events);
  }

  lemma ReplayFrom(cfg: Config, caps: Caps, s: Sys, events: seq<SysEvent>)
    requires Conserved(caps, s) && Decimated(s) && s.log == []
    ensures var end := RunSys(cfg, caps, s, events);
      var log := Replay(cfg, s.x.k, Trace(cfg, caps, s, events));
      && end.x.k == RunOn(cfg, s.x.k, Trace(cfg, caps, s, events))
      && end.delivered + end.results + Opt(end.x.pending) == ResultsOf(log) && OpsOf(log) + end.ops == end.accepted
  {
    RunConserves(cfg, caps, s, events);
    RunReplays(cfg, caps, s, events);
    var log := Replay(cfg, s.x.k, Trace(cfg, caps, s, events));
    assert [] + log == log;
  }

  // ---------------------------------------------------------------------
  // What the motor gets
  // ---------------------------------------------------------------------

  lemma {:induction false} OpsAreNotTicks(log: seq<Applied>)
    ensures NoSystemTick(OpEvents(log))
  {
    if log != [] {
      OpsAreNotTicks(log[1..]);
    }
  }

  lemma {:induction false} TraceHasNoSystemTick(cfg: Config, caps: Caps, s: Sys, events: seq<SysEvent>)
    ensures NoSystemTick(Trace(cfg, caps, s, events))
    decreases |events|
  {
    if events != [] {
      if events[0].AdcDone? {
        var e := events[0];
        OpsAreNotTicks(Adc(cfg, s.x, e.frame, e.dt, e.view, s.ops, s.results, caps.results).log);
      }
      TraceHasNoSystemTick(cfg, caps, Next(cfg, caps, s, events[0]), events[1..]);
    }
  }

  lemma {:induction false} ModeStays(cfg: Config, k: KernelValue, trace: seq<Event>)
    requires NoSystemTick(trace)
    ensures RunOn(cfg, k, trace).st.mode == k.st.mode
    decreases |trace|
  {
    if trace != [] {
      var n := After(cfg, k, trace[0]);
      if n.st.mode != k.st.mode {
        ModeChangesOnlyAtSystemTick(cfg, k, trace[0]);
      }
      ModeStays(cfg, n, trace[1..]);
    }
  }

  /** In every run of the executor from boot each interrupt's command enables the driver
      only for an engaged, fault-free servo with its driver ok, and never asks for more
      than the configured effort.  No System tick is ever run, so a mode request waits
      for ever and the mode is the one booted. */
  lemma CommandsStayLimited(cfg: Config, caps: Caps, events: seq<SysEvent>, frame: Frame, dt: int)
    requires IsI16(cfg.effortLimit)
    ensures var k := RunSys(cfg, caps, BootSys(cfg), events).x.k;
      var st := After(cfg, k, NewFrame(frame)).st;
      var cmd := FastTick(cfg, st, dt).1;
      var lim := if cfg.effortLimit < 0 then -cfg.effortLimit else cfg.effortLimit;
      && k.st.mode.Position?
      && -lim <= cmd.effort <= lim
      && (cmd.driverEn <==> k.st.engaged && frame.driverOk && k.st.faults == 0)
  {
    var trace := Trace(cfg, caps, BootSys(cfg), events);
    RunReplays(cfg, caps, BootSys(cfg), events);
    TraceHasNoSystemTick(cfg, caps, BootSys(cfg), events);
    ModeStays(cfg, Booted(cfg), trace);
    RunJoin(cfg, Booted(cfg), trace, [NewFrame(frame)]);
    RunOne(cfg, RunOn(cfg, Booted(cfg), trace), NewFrame(frame));
    EffortStaysLimited(cfg, trace + [NewFrame(frame)], dt);
    FastTickIsGated(cfg, After(cfg, RunOn(cfg, Booted(cfg), trace), NewFrame(frame)).st, dt);
  }
}
